/** The page's input controller as an object whose fields the handlers of
    newtab/js/main.js update in place: one method per handler, each proved to
    have exactly the effect of the matching step function of `Controller` and to
    keep the invariant `Controller.Inv`. */
module Page {
  import opened Wrappers
  import opened Text
  import opened Seqs
  import opened Commands
  import opened History
  import opened SearchUrl
  import opened Controller
  import opened ControllerProps

  class InputSession {
    /** `query.value`, `queryGhost.value` and whether `cmdList` is displayed. */
    var query: string
    var ghostText: string
    var listVisible: bool
    /** `state.selectedCmdIndex`, `state.currentDisplayedSuggestions` and
        `state.currentInlineSuggestion`. */
    var selected: int
    var suggestions: seq<Suggestion>
    var inline: Option<string>
    /** The part of `state` the commands change. */
    var bgType: BgType
    var bgData: Option<string>
    var items: seq<Item>
    var style: string
    /** The stored search history and the effects so far. */
    var history: seq<string>
    var log: seq<Effect>
    const env: Env

    /** The session's state as a value. */
    function State(): View
      reads this
    {
      View(query, ghostText, listVisible, selected, suggestions, inline,
           App(bgType, bgData, items, style), history, log)
    }

    ghost predicate Valid()
      reads this
    {
      Inv(State())
    }

    /** The page after loading, with the stored history. */
    constructor (env: Env, history: seq<string>)
      ensures Valid() && this.env == env && State() == Initial(history)
    {
      this.env := env;
      query := "";
      ghostText := "";
      listVisible := false;
      selected := -1;
      suggestions := [];
      inline := None;
      bgType := NoBackground;
      bgData := None;
      items := [];
      style := "1";
      this.history := history;
      log := [];
    }

    /** `hideSuggestions`; the document click outside the search box and the
        field's `blur` call it too. */
    method HideSuggestions()
      requires Valid()
      modifies this
      ensures Valid() && State() == Hide(old(State()))
    {
      listVisible := false;
      selected := -1;
      suggestions := [];
    }

    /** The fields of `state` the commands change, as a value. */
    function AppState(): App
      reads this
    {
      App(bgType, bgData, items, style)
    }

    /** `runCmd(raw)`. */
    method RunCmd(raw: string)
      requires Valid()
      modifies this
      ensures Valid() && State() == RunCmdStep(env, old(State()), raw)
    {
      ghost var v0 := State();
      var parsed := ParseCommand(raw);
      ResetAndRun(raw, parsed);
      InvRunCmd(env, v0, raw);
    }

    method ResetAndRun(raw: string, parsed: Option<Parsed>)
      requires Valid()
      modifies this
      ensures State() == RunParsedStep(env, Hide(old(State())).(inline := None, ghostText := ""), raw, parsed)
    {
      HideSuggestions();
      inline := None;
      ghostText := "";
      RunParsed(raw, parsed);
    }

    /** The rest of `runCmd` once the list is hidden and the inline suggestion
        dropped: a search, or the parsed command. */
    method RunParsed(raw: string, parsed: Option<Parsed>)
      modifies this
      ensures State() == RunParsedStep(env, old(State()), raw, parsed)
    {
      if parsed.None? {
        RunSearch(Trim(raw));
      } else {
        RunCommand(parsed.value);
      }
    }

    /** The text is no command; `t` is its trimmed form: save and open the
        search, empty the field. */
    method RunSearch(t: string)
      modifies this
      ensures State() == SearchStep(env, old(State()), t)
    {
      if t != "" {
        history := SaveSearch(history, t);
        log := log + [Navigate(BuildSearchUrl(env.template, env.encode, t))];
      }
      query := "";
    }

    /** Dispatch the parsed command; empty the field when it was executed. */
    method RunCommand(p: Parsed)
      modifies this
      ensures State() == CommandStep(env, old(State()), p)
    {
      var outcome := Dispatch(p.cmd, p.parts);
      if outcome == Executed {
        query := "";
      }
    }

    /** The command branches of `runCmd`: what each command does to `state` and
        which effects it has; the field, the list and the history are untouched. */
    method Dispatch(cmd: string, parts: seq<string>) returns (outcome: Outcome)
      modifies this
      ensures var res := Execute(env, old(AppState()), cmd, parts);
        AppState() == res.0 && log == old(log) + res.1 && outcome == res.2
      ensures query == old(query) && ghostText == old(ghostText) && listVisible == old(listVisible)
      ensures selected == old(selected) && suggestions == old(suggestions) && inline == old(inline)
      ensures history == old(history)
    {
      var arg := Arg(parts, 1);
      outcome := Executed;
      if cmd == "//bg" {
        if arg == "" {
          log := log + [OpenFilePicker];
        } else {
          bgType := if EndsWith(Lower(arg), ".mp4") then Video else Image;
          bgData := Some(arg);
          log := log + [PersistState];
        }
      } else if cmd == "//addicon" {
        if arg == "" {
          log := log + [Alert(AddIconUsage)];
          outcome := Rejected;
        } else {
          var linkUrl := if StartsWith(arg, "http") then arg else "https://" + arg;
          var host := env.hostOf(linkUrl);
          if host.None? {
            // `new URL(linkUrl)` throws: the rest of `runCmd` does not run
            outcome := Aborted;
            return;
          }
          items := items + [Icon(linkUrl, FaviconUrl(host.value))];
          log := log + [PersistState];
        }
      } else if cmd == "//save" {
        log := log + [PersistState, Alert(SavedNotice)];
      } else if cmd == "//clear" {
        bgType := NoBackground;
        bgData := None;
        items := [];
        log := log + [ClearStore];
      } else if cmd == "//style" {
        if arg == "1" || arg == "2" {
          style := arg;
          log := log + [PersistState, Alert(StyleChanged(arg))];
        } else {
          log := log + [Alert(StyleUsage)];
          outcome := Rejected;
        }
      } else {
        log := log + [Alert(UnknownCommand)];
        outcome := Rejected;
      }
    }

    /** The `input` listener, run on the field's current text. */
    method InputHandler()
      requires Valid()
      modifies this
      ensures Valid() && State() == InputStep(old(State()), old(query))
    {
      ghost var v0 := State();
      var rawValue := query;
      var q := Lower(Trim(rawValue));
      InputBranches(rawValue, q);
      InvInput(v0, rawValue);
    }

    /** The branches of the `input` listener, with `q` the field's text `rawValue`
        trimmed and lower-cased. */
    method InputBranches(rawValue: string, q: string)
      requires query == rawValue
      modifies this
      ensures State() == InputWithQuery(old(State()), rawValue, q, true)
    {
      if !StartsWith(q, "//") {
        ghostText := "";
        // the correction of README.md's Findings: the stale inline suggestion goes too
        inline := None;
      }
      if StartsWith(q, "//") {
        CommandModeInput(rawValue, q, Table);
      } else if q == "" {
        listVisible := false;
        inline := None;
        ghostText := "";
      }
    }

    /** The command-mode part of the `input` listener, over the registry `cs`;
        `q` is the field's text trimmed and lower-cased. */
    method CommandModeInput(rawValue: string, q: string, cs: seq<Command>)
      modifies this
      ensures State() == CommandInputKeyed(cs, old(State()), rawValue, q, Lower(SplitWs(Trim(rawValue))[0]))
    {
      var parts := SplitWs(Trim(rawValue));
      var commandKey := Lower(parts[0]);
      CommandModeKeyed(rawValue, q, commandKey, cs);
    }

    /** The rest of the command-mode branch, once the command word is known. */
    method CommandModeKeyed(rawValue: string, q: string, commandKey: string, cs: seq<Command>)
      modifies this
      ensures State() == CommandInputKeyed(cs, old(State()), rawValue, q, commandKey)
    {
      inline := None;
      var potential := FindIn(cs, commandKey);
      if potential.Some? && EndsWith(rawValue, " ") {
        listVisible := false;
        ghostText := rawValue + PlaceholderText(potential.value.desc);
        return;
      } else {
        ghostText := "";
      }
      var matches := FilterIn(cs, Drop(q, 2));
      if matches == [] {
        listVisible := false;
        return;
      }
      suggestions := CommandItems(matches);
      selected := -1;
      listVisible := true;
    }

    /** The user edits the field to `raw`. */
    method OnInput(raw: string)
      requires Valid()
      modifies this
      ensures Valid() && State() == InputStep(old(State()), raw)
    {
      query := raw;
      InputHandler();
    }

    /** The debounced request for `q` answers `hints`. */
    method OnHints(q: string, hints: seq<string>)
      requires Valid()
      modifies this
      ensures Valid() && State() == HintsStep(old(State()), q, hints)
    {
      ghost var v0 := State();
      var unique := Dedup(hints);
      inline := None;
      ghostText := "";
      if unique == [] {
        listVisible := false;
        InvHints(v0, q, hints);
        return;
      }
      var top := unique[0];
      if Extends(top, q) {
        inline := Some(top);
        ghostText := top;
      }
      suggestions := HintItems(unique);
      selected := -1;
      listVisible := true;
      InvHints(v0, q, hints);
    }

    /** `selectCurrentSuggestion`. */
    method SelectCurrentSuggestion()
      requires Valid()
      modifies this
      ensures Valid() && State() == SelectStep(env, old(State()))
    {
      if selected < 0 || selected >= |suggestions| {
        return;
      }
      var s := suggestions[selected];
      HideSuggestions();
      match s
      case CommandItem(c) =>
        if '<' in c.desc {
          query := c.key + " ";
          InputHandler();
        } else {
          RunCmd(c.key);
        }
      case HintItem(t) =>
        RunCmd(t);
    }

    /** The `keydown` listener. */
    method OnKey(k: Key)
      requires Valid()
      modifies this
      ensures Valid() && State() == KeyStep(env, old(State()), k)
    {
      if Truthy(inline) && InlineKey(k) {
        OnInlineKey(k);
        return;
      }
      if listVisible && |suggestions| > 0 {
        OnListKey(k);
        return;
      }
      if k == Enter {
        var raw := Trim(query);
        if raw != "" {
          RunCmd(raw);
        }
      }
    }

    /** The keys the shown inline suggestion answers to. */
    method OnInlineKey(k: Key)
      requires Valid() && Truthy(inline)
      modifies this
      ensures Valid() && State() == InlineKeyStep(env, old(State()), k)
    {
      if k == Enter {
        RunCmd(inline.value);
      } else if k == Tab || k == ArrowRight {
        query := inline.value;
        inline := None;
        ghostText := "";
        HideSuggestions();
      } else if k == Escape {
        inline := None;
        ghostText := "";
      }
    }

    /** The keys the shown, non-empty list answers to. */
    method OnListKey(k: Key)
      requires Valid() && listVisible && |suggestions| > 0
      modifies this
      ensures Valid() && State() == ListKeyStep(env, old(State()), k)
    {
      var max := |suggestions|;
      if k == ArrowDown || k == ArrowUp {
        if selected == -1 {
          selected := 0;
        } else if k == ArrowDown {
          selected := JsRem(selected + 1, max);
        } else {
          selected := JsRem(selected - 1 + max, max);
        }
      } else if k == Tab {
        SelectCurrentSuggestion();
      } else if k == Enter {
        SelectCurrentSuggestion();
      } else if k == Escape {
        HideSuggestions();
      }
    }

    /** A click on the list item whose `data-index` is `i`. */
    method OnClick(i: nat)
      requires Valid()
      modifies this
      ensures Valid() && State() == ClickStep(env, old(State()), i)
    {
      selected := i;
      SelectCurrentSuggestion();
    }

    /** The run button submits the field's text as it is. */
    method OnRunButton()
      requires Valid()
      modifies this
      ensures Valid() && State() == RunCmdStep(env, old(State()), old(query))
    {
      RunCmd(query);
    }
  }
}
