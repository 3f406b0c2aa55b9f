/** Properties of the input controller: the invariant every handler keeps, the
    mode classification, command-mode and search-mode suggestions, the key
    priorities, selection and submission. */
module ControllerProps {
  import opened Wrappers
  import opened Text
  import opened Seqs
  import opened Commands
  import opened History
  import opened SearchUrl
  import opened Controller

  // ------------------------------------------------------------ the invariant

  lemma InvInitial(history: seq<string>)
    ensures Inv(Initial(history))
  {
  }

  lemma InvHide(v: View)
    requires Inv(v)
    ensures Inv(Hide(v))
  {
  }

  /** Whatever the state before, `runCmd` leaves a consistent one. */
  lemma InvRunCmd(env: Env, v: View, raw: string)
    ensures Inv(RunCmdStep(env, v, raw))
  {
    RunCmdResetsSuggestions(env, v, raw);
  }

  lemma InvInput(v: View, raw: string)
    requires Inv(v)
    ensures Inv(InputStep(v, raw))
  {
    if StartsWith(Lower(Trim(raw)), "//") { InvCommandInput(v.(query := raw), raw); }
  }

  lemma InvCommandInput(v: View, raw: string)
    requires Inv(v)
    ensures Inv(CommandInput(v, raw))
  {
    InvCommandInputKeyed(Table, v, raw, Lower(Trim(raw)), Lower(SplitWs(Trim(raw))[0]));
  }

  lemma InvCommandInputKeyed(cs: seq<Command>, v: View, raw: string, q: string, key: string)
    requires Inv(v)
    ensures Inv(CommandInputKeyed(cs, v, raw, q, key))
  {
    CommandItemsHomogeneous(FilterIn(cs, Drop(q, 2)));
  }

  lemma CommandItemsHomogeneous(cs: seq<Command>)
    ensures Homogeneous(CommandItems(cs))
  {
  }

  lemma InvHints(v: View, q: string, hints: seq<string>)
    requires Inv(v)
    ensures Inv(HintsStep(v, q, hints))
  {
  }

  lemma InvSelect(env: Env, v: View)
    requires Inv(v)
    ensures Inv(SelectStep(env, v))
  {
    if 0 <= v.selected < |v.suggestions| {
      var h := Hide(v);
      match v.suggestions[v.selected]
      case CommandItem(c) =>
        if '<' in c.desc { InvInput(h, c.key + " "); } else { InvRunCmd(env, h, c.key); }
      case HintItem(t) => InvRunCmd(env, h, t);
    }
  }

  lemma InvKey(env: Env, v: View, k: Key)
    requires Inv(v)
    ensures Inv(KeyStep(env, v, k))
  {
    if Truthy(v.inline) && k == Enter {
      InvRunCmd(env, v, v.inline.value);
    } else if Truthy(v.inline) && (k == Tab || k == ArrowRight) {
    } else if Truthy(v.inline) && k == Escape {
    } else if v.listVisible && |v.suggestions| > 0 {
      if k == Tab || k == Enter { InvSelect(env, v); }
    } else if k == Enter && Trim(v.query) != "" {
      InvRunCmd(env, v, Trim(v.query));
    }
  }

  lemma InvClick(env: Env, v: View, i: nat)
    requires Inv(v)
    ensures Inv(ClickStep(env, v, i))
  {
    InvSelect(env, v.(selected := i));
  }

  // ------------------------------------------------------------ modes

  datatype Mode = Idle | CommandMode | SearchMode

  /** The mode the `input` handler assigns to the field's text. */
  function ModeOf(raw: string): Mode {
    var q := Lower(Trim(raw));
    if StartsWith(q, "//") then CommandMode else if q != "" then SearchMode else Idle
  }

  /** Command mode is exactly "the trimmed text starts with `//`", search mode is
      any other text that is not all white space, and idle is the rest. */
  lemma ModeClassification(raw: string)
    ensures ModeOf(raw) == CommandMode <==> StartsWith(Trim(raw), "//")
    ensures ModeOf(raw) == SearchMode <==> !StartsWith(Trim(raw), "//") && exists i :: 0 <= i < |raw| && !IsSpace(raw[i])
    ensures ModeOf(raw) == Idle <==> forall i :: 0 <= i < |raw| ==> IsSpace(raw[i])
  {
    var t := Trim(raw);
    LowerKeepsSlashes(t);
    assert ModeOf(raw) == if StartsWith(t, "//") then CommandMode else if t != [] then SearchMode else Idle;
    NonBlank(raw);
  }

  /** Text is blank for `trim` exactly when it has no character but white space. */
  lemma NonBlank(raw: string)
    ensures Trim(raw) != [] <==> exists i :: 0 <= i < |raw| && !IsSpace(raw[i])
  {
  }

  // ------------------------------------------------------------ command mode

  /** The first word of the field, lower-cased: the candidate command key. */
  function CommandKey(raw: string): string {
    Lower(SplitWs(Trim(raw))[0])
  }

  /** A complete registered key followed by a space: the list is hidden, the
      inline suggestion cleared, and the ghost shows the text plus the usage
      line's placeholder; the list contents and the selection are left as they were. */
  lemma CommandArgumentGhost(v: View, raw: string)
    requires ModeOf(raw) == CommandMode && Find(CommandKey(raw)).Some? && EndsWith(raw, " ")
    ensures var r := InputStep(v, raw);
      && r.query == raw && !r.listVisible && r.inline == None
      && r.ghostText == raw + PlaceholderText(Find(CommandKey(raw)).value.desc)
      && r.suggestions == v.suggestions && r.selected == v.selected
  {
  }

  /** Otherwise in command mode the suggestions are exactly the registry entries,
      in registry order, whose match text contains the text after `//`; the
      selection is reset; an empty result hides the list (and leaves the old
      entries in place, as the page does). */
  lemma CommandSuggestions(v: View, raw: string)
    requires ModeOf(raw) == CommandMode && !(Find(CommandKey(raw)).Some? && EndsWith(raw, " "))
    ensures var r := InputStep(v, raw);
      var filter := Drop(Lower(Trim(raw)), 2);
      && r.query == raw && r.inline == None && r.ghostText == ""
      && (Suggest(filter) == [] ==> !r.listVisible && r.suggestions == v.suggestions && r.selected == v.selected)
      && (Suggest(filter) != [] ==>
            && r.listVisible && r.selected == -1
            && (forall c :: CommandItem(c) in r.suggestions <==> c in Table && Matches(c, filter))
            && (forall s :: s in r.suggestions ==> s.CommandItem?)
            && r.suggestions == CommandItems(Suggest(filter)))
  {
    var filter := Drop(Lower(Trim(raw)), 2);
    assert InputStep(v, raw) == CommandInputIn(Table, v.(query := raw), raw);
    CommandListIn(Table, v.(query := raw), raw);
    FilterInMembers(Table, filter);
    CommandItemsMembership(Suggest(filter));
  }

  /** The filtering branch of command mode over any registry `cs`. */
  lemma CommandListIn(cs: seq<Command>, v: View, raw: string)
    requires !(FindIn(cs, CommandKey(raw)).Some? && EndsWith(raw, " "))
    ensures var r := CommandInputIn(cs, v, raw);
      var matches := FilterIn(cs, Drop(Lower(Trim(raw)), 2));
      && r.query == v.query && r.inline == None && r.ghostText == ""
      && (matches == [] ==> !r.listVisible && r.suggestions == v.suggestions && r.selected == v.selected)
      && (matches != [] ==> r.listVisible && r.selected == -1 && r.suggestions == CommandItems(matches))
  {
  }

  /** The list entries made from commands are exactly those commands. */
  lemma CommandItemsMembership(ms: seq<Command>)
    ensures forall c :: CommandItem(c) in CommandItems(ms) <==> c in ms
    ensures forall s :: s in CommandItems(ms) ==> s.CommandItem?
  {
    var r := CommandItems(ms);
    forall c ensures CommandItem(c) in r <==> c in ms {
      if c in ms {
        var i :| 0 <= i < |ms| && ms[i] == c;
        assert r[i] == CommandItem(c);
      }
    }
  }

  /** Typing any prefix of a command's name after `//` offers that command. */
  lemma KeyPrefixOffered(v: View, raw: string, c: Command)
    requires c in Table
    requires ModeOf(raw) == CommandMode && !(Find(CommandKey(raw)).Some? && EndsWith(raw, " "))
    requires Drop(Lower(Trim(raw)), 2) <= Drop(c.key, 2)
    ensures CommandItem(c) in InputStep(v, raw).suggestions && InputStep(v, raw).listVisible
  {
    var filter := Drop(Lower(Trim(raw)), 2);
    TableKeys();
    KeyPrefixMatches(c, filter);
    FilterInMembers(Table, filter);
    assert c in Suggest(filter);
    CommandSuggestions(v, raw);
  }

  lemma KeyPrefixMatches(c: Command, f: string)
    requires WellFormedKey(c.key) && f <= Drop(c.key, 2)
    ensures Matches(c, f)
  {
    var d := Drop(c.key, 2);
    var t := d + " " + c.short;
    forall i | 0 <= i < |f| ensures MatchText(c)[i] == f[i] {
      assert t[i] == d[i] == c.key[i + 2];
      KeyCharsAt(c.key, 0, i + 2);
    }
    assert MatchText(c)[..|f|] == f;
    assert OccursAt(MatchText(c), f, 0);
  }

  // ------------------------------------------------------------ search mode

  /** When hints arrive they are shown de-duplicated in first-seen order, the
      selection is reset, and the top hint itself is the inline suggestion when it
      strictly extends the query; no check that `q` is still the field's query is
      made. No hints hide the list. */
  lemma HintsShown(v: View, q: string, hints: seq<string>)
    ensures var r := HintsStep(v, q, hints);
      && r.query == v.query
      && (hints == [] ==> !r.listVisible && r.inline == None && r.ghostText == "")
      && (hints != [] ==>
            && r.listVisible && r.selected == -1
            && r.suggestions == HintItems(Dedup(hints))
            && (r.inline.Some? <==> Extends(hints[0], q))
            && (r.inline.Some? ==> r.inline.value == hints[0] && r.ghostText == hints[0]))
  {
  }

  /** An inline suggestion is always a strict extension of the query it was
      computed for: the query is a proper prefix of the lower-cased suggestion. */
  lemma InlineIsStrictExtension(v: View, q: string, hints: seq<string>)
    requires HintsStep(v, q, hints).inline.Some?
    ensures var s := HintsStep(v, q, hints).inline.value;
      |s| > |q| && Lower(s)[..|q|] == q && s[|q|..] != []
  {
  }

  /** The query `hello wor` receiving `hello world` and `hello world cup`: the
      ghost text is `hello world`, and Tab puts exactly that into the field
      without submitting anything. */
  lemma HelloWorldScenario(env: Env, v: View)
    requires Inv(v)
    ensures var shown := HintsStep(v, "hello wor", ["hello world", "hello world cup"]);
      var tabbed := KeyStep(env, shown, Tab);
      && shown.inline == Some("hello world") && shown.ghostText == "hello world"
      && tabbed.query == "hello world" && tabbed.log == v.log && !tabbed.listVisible
  {
    var hints := ["hello world", "hello world cup"];
    assert Dedup(hints) == hints by {
      assert hints[..1] == ["hello world"];
      assert Dedup(hints[..1]) == ["hello world"];
    }
    assert Extends("hello world", "hello wor") by {
      assert Lower("hello world")[..9] == "hello wor";
    }
  }

  // ------------------------------------------------------------ keys

  /** Within the list, ArrowUp undoes ArrowDown and the other way round. */
  lemma ArrowUndo(max: int, i: int)
    requires max > 0 && 0 <= i < max
    ensures ArrowIndex(ArrowUp, ArrowIndex(ArrowDown, i, max), max) == i
    ensures ArrowIndex(ArrowDown, ArrowIndex(ArrowUp, i, max), max) == i
  {
  }

  /** With the list open, an arrow key moves only the selection, and afterwards
      the selection is an index of the list (even while an inline suggestion is
      set: the arrows fall through to the list). */
  lemma ArrowKeepsSelectionInRange(env: Env, v: View, k: Key)
    requires Inv(v) && v.listVisible && (k == ArrowDown || k == ArrowUp)
    ensures var r := KeyStep(env, v, k);
      && 0 <= r.selected < |v.suggestions|
      && r == v.(selected := r.selected)
  {
  }

  /** While an inline suggestion is set, Tab and ArrowRight put it into the field,
      clear it and its ghost, hide the list and submit nothing. */
  lemma InlineCommit(env: Env, v: View, k: Key)
    requires Inv(v) && v.inline.Some? && (k == Tab || k == ArrowRight)
    ensures var r := KeyStep(env, v, k);
      && r.query == v.inline.value && r.inline == None && r.ghostText == ""
      && !r.listVisible && r.suggestions == [] && r.selected == -1
      && r.log == v.log && r.history == v.history && r.app == v.app
  {
  }

  /** While an inline suggestion is set, Escape clears it and its ghost only. */
  lemma InlineEscape(env: Env, v: View)
    requires Inv(v) && v.inline.Some?
    ensures KeyStep(env, v, Escape) == v.(inline := None, ghostText := "")
  {
  }

  /** While an inline suggestion is set, Enter submits it, whatever the list shows. */
  lemma InlineEnter(env: Env, v: View)
    requires Truthy(v.inline)
    ensures KeyStep(env, v, Enter) == RunCmdStep(env, v, v.inline.value)
  {
  }

  /** With the list open and nothing selected, Enter and Tab do nothing at all:
      the selection does not default to the first item. */
  lemma EnterWithoutSelection(env: Env, v: View, k: Key)
    requires Inv(v) && !Truthy(v.inline) && v.listVisible && v.selected == -1
    requires k == Enter || k == Tab
    ensures KeyStep(env, v, k) == v
  {
  }

  /** With neither an inline suggestion nor an open list, Enter submits the trimmed
      field, and only when it is not blank. */
  lemma PlainEnter(env: Env, v: View)
    requires !Truthy(v.inline) && !(v.listVisible && v.suggestions != [])
    ensures KeyStep(env, v, Enter) ==
      if Trim(v.query) != "" then RunCmdStep(env, v, Trim(v.query)) else v
  {
  }

  /** A click on item `i` resolves exactly as Enter with item `i` selected. */
  lemma ClickIsEnter(env: Env, v: View, i: nat)
    requires Inv(v) && !Truthy(v.inline) && v.listVisible
    ensures ClickStep(env, v, i) == KeyStep(env, v.(selected := i), Enter)
  {
  }

  /** With an inline suggestion set, a click and Enter part ways: the click runs
      the clicked hint, while Enter runs the inline suggestion whatever is selected. */
  lemma ClickOverInline(env: Env, v: View, i: nat)
    requires Truthy(v.inline) && i < |v.suggestions| && v.suggestions[i].HintItem?
    ensures ClickStep(env, v, i) == RunCmdStep(env, Hide(v.(selected := i)), v.suggestions[i].text)
    ensures KeyStep(env, v.(selected := i), Enter) == RunCmdStep(env, v.(selected := i), v.inline.value)
  {
    SelectRuns(env, v.(selected := i));
    InlineEnter(env, v.(selected := i));
  }

  // ------------------------------------------------------------ selection

  /** An index outside the list, -1 included, selects nothing and changes nothing. */
  lemma SelectOutOfRange(env: Env, v: View)
    requires !(0 <= v.selected < |v.suggestions|)
    ensures SelectStep(env, v) == v
  {
  }

  /** Selecting a registry command whose usage line has a `<`: the field becomes
      the key and a space, the input pipeline runs again on it, and so the list
      stays hidden and the ghost shows the key, a space and the placeholder. */
  lemma SelectCommandWithPlaceholder(env: Env, v: View)
    requires 0 <= v.selected < |v.suggestions|
    requires v.suggestions[v.selected].CommandItem?
    requires v.suggestions[v.selected].command in Table
    requires '<' in v.suggestions[v.selected].command.desc
    ensures var c := v.suggestions[v.selected].command;
      var r := SelectStep(env, v);
      && r.query == c.key + " "
      && r.ghostText == c.key + " " + PlaceholderText(c.desc)
      && !r.listVisible && r.suggestions == [] && r.selected == -1 && r.inline == None
      && r.log == v.log && r.app == v.app
  {
    var c := v.suggestions[v.selected].command;
    TableKeys();
    FindRegistered(c);
    CompletedKeyGhost(Hide(v), c.key, c);
  }

  /** The text of a well-formed key: trimmed, one word, already lower case. */
  lemma WellFormedKeyText(k: string)
    requires WellFormedKey(k)
    ensures k != [] && Trimmed(k) && NoSpace(k) && Lower(k) == k && StartsWith(k, "//")
  {
    assert k[0] == k[..2][0] == '/';
    KeyCharsAt(k, 0, |k| - 1);
    forall i | 0 <= i < |k| ensures !IsSpace(k[i]) && Lower(k)[i] == k[i] {
      KeyCharsAt(k, 0, i);
    }
  }

  /** Typing a registered key and a space shows the key's placeholder. */
  lemma CompletedKeyGhost(v: View, k: string, c: Command)
    requires WellFormedKey(k) && Find(k) == Some(c)
    ensures var r := InputStep(v, k + " ");
      && r.query == k + " " && r.ghostText == k + " " + PlaceholderText(c.desc)
      && !r.listVisible && r.inline == None
      && r.suggestions == v.suggestions && r.selected == v.selected
      && r.log == v.log && r.app == v.app && r.history == v.history
  {
    WellFormedKeyText(k);
    TrimDropsTrailingSpace(k);
    SplitWsOfWord(k);
    assert EndsWith(k + " ", " ");
    ModeClassification(k + " ");
    CommandArgumentGhost(v, k + " ");
  }

  /** Selecting a command without a `<` runs its key; selecting a hint runs its text;
      the list is hidden first. */
  lemma SelectRuns(env: Env, v: View)
    requires 0 <= v.selected < |v.suggestions|
    requires v.suggestions[v.selected].HintItem? || '<' !in v.suggestions[v.selected].command.desc
    ensures SelectStep(env, v) == RunCmdStep(env, Hide(v),
      match v.suggestions[v.selected]
      case CommandItem(c) => c.key
      case HintItem(t) => t)
  {
  }

  // ------------------------------------------------------------ submission

  /** `runCmd` always hides the list and clears the inline suggestion and ghost. */
  lemma RunCmdResetsSuggestions(env: Env, v: View, raw: string)
    ensures var r := RunCmdStep(env, v, raw);
      && !r.listVisible && r.suggestions == [] && r.selected == -1
      && r.inline == None && r.ghostText == ""
  {
    var v1 := Hide(v).(inline := None, ghostText := "");
    match ParseCommand(raw)
    case None =>
    case Some(p) =>
      var res := Execute(env, v1.app, p.cmd, p.parts);
      assert RunCmdStep(env, v, raw) == if res.2 == Executed
        then v1.(app := res.0, log := v1.log + res.1, query := "")
        else v1.(app := res.0, log := v1.log + res.1);
  }

  /** Text that is not a command always clears the field; when it is not blank it
      is recorded in the history and the page navigates to its search address. */
  lemma RunSearch(env: Env, v: View, raw: string)
    requires !StartsWith(Trim(raw), "//")
    ensures var r := RunCmdStep(env, v, raw);
      && r.query == "" && r.app == v.app
      && (Trim(raw) != "" ==>
            && r.history == SaveSearch(v.history, Trim(raw))
            && r.log == v.log + [Navigate(BuildSearchUrl(env.template, env.encode, Trim(raw)))])
      && (Trim(raw) == "" ==> r.history == v.history && r.log == v.log)
  {
  }

  /** A command clears the field exactly when it executed; one that did not run
      leaves the field and the application state as they were. */
  lemma RunCommandClearsOnlyWhenExecuted(env: Env, v: View, raw: string)
    requires StartsWith(Trim(raw), "//")
    ensures var p := ParseCommand(raw).value;
      var res := Execute(env, v.app, p.cmd, p.parts);
      var r := RunCmdStep(env, v, raw);
      && (res.2 == Executed ==> r.query == "")
      && (res.2 != Executed ==> r.query == v.query && r.app == v.app)
      && r.history == v.history && r.log == v.log + res.1
  {
  }

  /** A command word the dispatcher has no branch for is refused with a notice and
      changes nothing. That includes `//textcolor` and `//setsearch`, which are
      registered (so they are suggested) but not handled. */
  lemma UnknownCommandRefused(env: Env, app: App, cmd: string, parts: seq<string>)
    requires cmd !in {"//bg", "//addicon", "//save", "//clear", "//style"}
    ensures Execute(env, app, cmd, parts) == (app, [Alert(UnknownCommand)], Rejected)
  {
  }

  lemma RegisteredButUnhandled()
    ensures Find("//textcolor") == Some(Table[5]) && Find("//setsearch") == Some(Table[6])
    ensures "//textcolor" !in {"//bg", "//addicon", "//save", "//clear", "//style"}
    ensures "//setsearch" !in {"//bg", "//addicon", "//save", "//clear", "//style"}
  {
    FindRegistered(Table[5]);
    FindRegistered(Table[6]);
  }

  /** `//style` changes the style exactly when its argument is `1` or `2`; a
      missing `//addicon` argument is refused with a usage notice. */
  lemma StyleAndAddiconArguments(env: Env, app: App, parts: seq<string>)
    ensures var res := Execute(env, app, "//style", parts);
      (res.2 == Executed <==> Arg(parts, 1) in {"1", "2"})
      && res.0.style == (if Arg(parts, 1) in {"1", "2"} then Arg(parts, 1) else app.style)
    ensures Arg(parts, 1) == "" ==>
      Execute(env, app, "//addicon", parts) == (app, [Alert(AddIconUsage)], Rejected)
  {
  }

  /** Typed end to end: `//style` in any case, white space and `1` or `2` switch
      the style to that argument and empty the field. */
  lemma StyleTyped(env: Env, v: View, raw: string, k: string, sp: string, a: string)
    requires StartsWith(k, "//") && NoSpace(k) && Lower(k) == "//style"
    requires SpaceRun(sp) && a in {"1", "2"} && Trim(raw) == k + sp + a
    ensures RunCmdStep(env, v, raw).app == v.app.(style := a)
    ensures RunCmdStep(env, v, raw).query == ""
  {
    StyleWord(a);
    TypedCommand(env, v, raw, k, sp, a);
    StyleStep(env, Hide(v).(inline := None, ghostText := ""), k, a);
  }

  lemma StyleWord(a: string)
    requires a in {"1", "2"}
    ensures a != [] && NoSpace(a)
  {
  }

  lemma StyleStep(env: Env, v1: View, k: string, a: string)
    requires a in {"1", "2"}
    ensures var r := CommandStep(env, v1, Parsed("//style", [k, a]));
      r.app == v1.app.(style := a) && r.query == ""
  {
    assert Arg([k, a], 1) == a;
  }

  /** Typed end to end: `//bg` in any case, white space and an address set the
      background to that address with its case kept. */
  lemma BackgroundTyped(env: Env, v: View, raw: string, k: string, sp: string, u: string)
    requires StartsWith(k, "//") && NoSpace(k) && Lower(k) == "//bg"
    requires SpaceRun(sp) && u != [] && NoSpace(u) && Trim(raw) == k + sp + u
    ensures RunCmdStep(env, v, raw).app.bgData == Some(u)
    ensures RunCmdStep(env, v, raw).query == ""
  {
    TypedCommand(env, v, raw, k, sp, u);
    BackgroundStep(env, Hide(v).(inline := None, ghostText := ""), k, u);
  }

  lemma BackgroundStep(env: Env, v1: View, k: string, u: string)
    requires u != []
    ensures var r := CommandStep(env, v1, Parsed("//bg", [k, u]));
      r.app.bgData == Some(u) && r.query == ""
  {
    assert Arg([k, u], 1) == u;
  }

  /** Running a typed command word and argument is the command's step on those
      two parts. */
  lemma TypedCommand(env: Env, v: View, raw: string, k: string, sp: string, a: string)
    requires StartsWith(k, "//") && NoSpace(k) && SpaceRun(sp) && a != [] && NoSpace(a)
    requires Trim(raw) == k + sp + a
    ensures RunCmdStep(env, v, raw) == CommandStep(env, Hide(v).(inline := None, ghostText := ""), Parsed(Lower(k), [k, a]))
  {
    TwoWords(raw, k, sp, a);
  }

  /** A command word, a run of white space and a word parse as those two parts. */
  lemma TwoWords(raw: string, k: string, w: string, a: string)
    requires StartsWith(k, "//") && NoSpace(k) && SpaceRun(w) && a != [] && NoSpace(a)
    requires Trim(raw) == k + w + a
    ensures ParseCommand(raw) == Some(Parsed(Lower(k), [k, a]))
  {
    TwoInterleaved(k, w, a);
    ParseCommandOfWords(raw, [k, a], [w]);
  }

  /** What the handled commands do to the page: `//bg` sets only the background
      (a video exactly for an `.mp4` address) or, without an argument, opens the
      file picker; `//addicon` appends one icon when the address parses and
      otherwise stops; `//save` only persists; `//clear` empties the board and the
      background but keeps the style. */
  lemma HandledCommands(env: Env, app: App, parts: seq<string>)
    ensures var arg := Arg(parts, 1);
      var r := Execute(env, app, "//bg", parts);
      && r.2 == Executed && r.0.items == app.items && r.0.style == app.style
      && (arg == "" <==> r.1 == [OpenFilePicker])
      && (arg == "" ==> r.0 == app)
      && (arg != "" ==> r.0.bgData == Some(arg) && (r.0.bgType == Video <==> EndsWith(Lower(arg), ".mp4")))
      && (arg != "" ==> r.1 == [PersistState])
    ensures var arg := Arg(parts, 1);
      var link := if StartsWith(arg, "http") then arg else "https://" + arg;
      var r := Execute(env, app, "//addicon", parts);
      arg != "" ==>
        && (r.2 == Executed <==> env.hostOf(link).Some?)
        && (r.2 == Executed ==>
              && |r.0.items| == |app.items| + 1 && r.0.items[..|app.items|] == app.items
              && r.0.items[|app.items|].linkUrl == link
              && r.0.items[|app.items|].iconUrl == FaviconUrl(env.hostOf(link).value)
              && r.0 == app.(items := r.0.items))
    ensures Execute(env, app, "//save", parts) == (app, [PersistState, Alert(SavedNotice)], Executed)
    ensures var r := Execute(env, app, "//clear", parts);
      && r.2 == Executed && r.0.items == [] && r.0.bgData == None && r.0.bgType == NoBackground
      && r.0.style == app.style && r.1 == [ClearStore]
  {
    var arg := Arg(parts, 1);
    var link := if StartsWith(arg, "http") then arg else "https://" + arg;
    if arg != "" && env.hostOf(link).Some? {
      var r := Execute(env, app, "//addicon", parts);
      assert r.0.items == app.items + [Icon(link, FaviconUrl(env.hostOf(link).value))];
    }
  }

  // ------------------------------------------------------------ the finding

  /** As the page is written, a search-mode edit hides the ghost text but keeps
      whatever inline suggestion was set. */
  lemma SearchEditAsWritten(v: View, raw: string)
    requires ModeOf(raw) == SearchMode
    ensures InputStepAsWritten(v, raw) == v.(query := raw, ghostText := "")
  {
  }

  /** With the correction the same edit clears the inline suggestion too. */
  lemma SearchEditCorrected(v: View, raw: string)
    requires ModeOf(raw) == SearchMode
    ensures InputStep(v, raw) == v.(query := raw, ghostText := "", inline := None)
  {
  }

  /** An edit to nothing but white space hides the list and clears the inline
      suggestion and the ghost, keeping the last suggestions; this branch is the
      same as written and corrected. */
  lemma IdleInput(v: View, raw: string)
    requires forall i :: 0 <= i < |raw| ==> IsSpace(raw[i])
    ensures InputStep(v, raw) == v.(query := raw, listVisible := false, inline := None, ghostText := "")
    ensures InputStepAsWritten(v, raw) == InputStep(v, raw)
  {
    ModeClassification(raw);
  }

  /** Text without white space at its ends that does not start with `/` is a search. */
  lemma SearchModeOf(raw: string)
    requires raw != [] && Trimmed(raw) && raw[0] != '/'
    ensures ModeOf(raw) == SearchMode && Trim(raw) == raw
  {
    TrimOfTrimmed(raw);
    LowerKeepsSpaceAndSlash(raw[0]);
    assert Lower(raw)[0] == LowerChar(raw[0]);
  }

  /** As written, for any query `q`, a single hint `h` offered inline for it, and
      any further search-mode edit to `raw`: the inline suggestion survives
      invisibly, the state breaks the invariant, and Enter searches for `h` rather
      than for the field's text. */
  lemma StaleInlineAsWrittenAt(env: Env, v: View, q: string, h: string, raw: string)
    requires Extends(h, q) && ModeOf(raw) == SearchMode && ModeOf(h) == SearchMode
    ensures var typed := InputStepAsWritten(HintsStep(v, q, [h]), raw);
      && typed.query == raw && typed.inline == Some(h) && typed.ghostText == ""
      && !Inv(typed)
      && KeyStep(env, typed, Enter).log == v.log + [Navigate(BuildSearchUrl(env.template, env.encode, Trim(h)))]
  {
    var shown := HintsStep(v, q, [h]);
    assert Dedup([h]) == [h];
    SearchEditAsWritten(shown, raw);
    var typed := InputStepAsWritten(shown, raw);
    assert typed.inline == Some(h) && typed.log == v.log;
    InlineEnter(env, typed);
    ModeClassification(h);
    assert Trim(h) != "";
    RunSearch(env, typed, h);
  }

  /** Corrected, the same edit clears the inline suggestion, keeps the invariant,
      and Enter then submits nothing while the hint list is open with nothing
      selected. */
  lemma StaleInlineCorrectedAt(env: Env, v: View, q: string, h: string, raw: string)
    requires Inv(v) && Extends(h, q) && ModeOf(raw) == SearchMode
    ensures var typed := InputStep(HintsStep(v, q, [h]), raw);
      && typed.query == raw && typed.inline == None && Inv(typed)
      && KeyStep(env, typed, Enter) == typed
  {
    var shown := HintsStep(v, q, [h]);
    HintsShown(v, q, [h]);
    SearchEditCorrected(shown, raw);
    InvHints(v, q, [h]);
    InvInput(shown, raw);
    var typed := InputStep(shown, raw);
    EnterWithoutSelection(env, typed, Enter);
  }

  /** `hello world` is offered inline for `hello wor`. */
  lemma HelloWorldExtends()
    ensures Extends("hello world", "hello wor")
  {
    assert Lower("hello world")[..9] == "hello wor";
  }

  /** The instance: after `hello wor` received `hello world` and the user typed
      `x`, the field reads `hello worx` but Enter searches for `hello world`. */
  lemma StaleInlineAsWritten(env: Env, v: View)
    ensures var typed := InputStepAsWritten(HintsStep(v, "hello wor", ["hello world"]), "hello worx");
      && typed.query == "hello worx"
      && typed.inline == Some("hello world") && typed.ghostText == ""
      && !Inv(typed)
      && KeyStep(env, typed, Enter).log == v.log + [Navigate(BuildSearchUrl(env.template, env.encode, "hello world"))]
  {
    HelloWorldExtends();
    SearchModeOf("hello worx");
    SearchModeOf("hello world");
    StaleInlineAsWrittenAt(env, v, "hello wor", "hello world", "hello worx");
  }

  /** The same instance, corrected: Enter on the open hint list does nothing. */
  lemma StaleInlineCorrected(env: Env, v: View)
    requires Inv(v)
    ensures var typed := InputStep(HintsStep(v, "hello wor", ["hello world"]), "hello worx");
      && typed.query == "hello worx" && typed.inline == None && Inv(typed)
      && KeyStep(env, typed, Enter) == typed
  {
    HelloWorldExtends();
    SearchModeOf("hello worx");
    StaleInlineCorrectedAt(env, v, "hello wor", "hello world", "hello worx");
  }
}
