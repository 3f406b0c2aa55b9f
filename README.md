# The new-tab command and search field, in Dafny

This project models the input controller of the new-tab page (`newtab/js/main.js`).
The page has a single text field. Text starting with `//` is a command for the page
itself, drawn from a fixed registry (`COMMANDS`). Any other text is a web search,
with remote hints shown in a list and the top hint offered inline as ghost text.
The controller is one field plus a little state: the index of the selected list
entry, the entries on display, the inline suggestion, and whether the list is shown.
Commands change the page's persisted state (background, icons, style). Searches
add to a search history kept at most 20 entries long and navigate to an address
built from a template.

Layout:

- `wrappers.dfy`: `Option`.
- `seqs.dfy`: duplicate-free sequences, subsequences, and `[...new Set(xs)]` as `Dedup`.
- `text.dfy`: the JavaScript string operations the code uses. These are `trim`,
  `toLowerCase`, `startsWith`, `endsWith`, `includes`, `substring`, `split(/\s+/)`,
  `split('.')` and `replace(/%s/g, …)`.
- `commands.dfy`: the `COMMANDS` registry with its exact texts, lookup by key, the
  filter used while typing, and the `<…>` placeholder of a usage line.
- `history.dfy`: `saveSearch`.
- `search_url.dfy`: `buildSearchUrl`.
- `version.dfy`: `isNewerVersion`, a loop with early returns, proved against a
  component-wise definition of "newer".
- `controller.dfy`: the controller's state as a value (`View`), and one step
  function per handler giving the state after it.
- `controller_props.dfy`: what the handlers promise, as lemmas over the step
  functions, and the invariant `Inv` that every handler keeps.
- `page.dfy`: the class `Page.InputSession`. Its fields are the page's fields. Its
  methods are the handlers written out statement by statement, each proved to have
  exactly the effect of its step function and to keep `Inv`.

The effects the controller cannot perform in a model are recorded in order in a log
of `Effect`s: navigation, opening the file picker, saving the state, clearing the
store and alerts. Three things are parameters of an `Env`:

- the configured search template;
- `encodeURIComponent`;
- `new URL(u).hostname`, which yields `None` where the browser throws.

The latest hint response is an explicit event, `OnHints(q, hints)`.

Where the code and the intended design differ, the model follows the code:

- Enter or Tab on an open list with nothing selected, when no inline suggestion
  is set, does nothing. The selection does not default to the first entry.
- A hint response is applied whenever it arrives. No check is made that its query
  is still the field's text.
- There is no guard against a second Enter.
- The inline suggestion is the whole top hint, not the typed text plus a suffix.
- Commands are matched while typing against the key without its `//`, a space and
  the short description, lower-cased.
- A command "has a placeholder" when its usage line contains `<`.
- `//textcolor` and `//setsearch` are registered, and so are suggested, but
  `runCmd` has no branch for them. They are refused as unknown commands.

The one place where the model does not follow the code is the search-mode edit
described under Findings. The session uses the corrected step. The code as written
is modelled beside it, with the input that shows the difference.

## Model

| member | source | states |
|---|---|---|
| Commands.TableKeys | newtab/js/main.js:60-68 | every registry key is `//` followed by slashes and lower-case letters only, and no two entries share a key |
| Commands.FindIn | newtab/js/main.js:256 | `COMMANDS.find` by key: a found entry is in the list and has that key |
| Commands.FindInFirst | newtab/js/main.js:256 | the entry found is the first with that key, and nothing is found exactly when no entry has it |
| Commands.FindDistinct | newtab/js/main.js:256 | in a list with distinct keys, an entry's key finds that entry |
| Commands.FindRegistered | newtab/js/main.js:256 | looking up the key of a registry entry finds that entry |
| Commands.FilterIn | newtab/js/main.js:268-270 | the filtered list is a subsequence of the registry, so it keeps registry order |
| Commands.FilterInMembers | newtab/js/main.js:268-270 | the filtered list holds exactly the entries whose match text contains the filter |
| Commands.Placeholder | newtab/js/main.js:260-261 | the group of `/<([^>]+)>/` in a usage line: when found it is non-empty, has no `>`, and occurs between `<` and `>` in the line; a line without `<` has none |
| Commands.PlaceholderLeftmost | newtab/js/main.js:260-261 | the group found is that of the leftmost match, and there is none exactly when no index of the line starts a `<…>` with a non-empty inside free of `>` |
| Commands.BracketAtStart | newtab/js/main.js:260 | a match at the start of a line is a `<` with the group running up to the first `>` |
| Seqs.Dedup | newtab/js/main.js:291 | `[...new Set(hints)]`: no duplicates, the same elements, the first hint first |
| Seqs.DedupFirstSeenOrder | newtab/js/main.js:291 | the de-duplicated list keeps the order in which values are first seen |
| Seqs.DedupIsSubsequence | newtab/js/main.js:291 | de-duplication only deletes entries: the result is a subsequence of the hints |
| Controller.ParseCommand | newtab/js/main.js:157-164 | a command exactly when the trimmed text starts with `//`; the parts are the trimmed text's whitespace-separated words; only the first word is lower-cased, and it starts with `//` |
| Controller.ParseCommandWords | newtab/js/main.js:161 | every part of a command is a non-empty word without white space |
| Controller.ParseCommandOfWords | newtab/js/main.js:157-164 | words after `//` separated by any runs of white space parse back into exactly those words, in order and with their case kept, the command being the first word lower-cased |
| Controller.ParseCommandRejoin | newtab/js/main.js:160-161 | conversely the parts, put back together with the runs of white space between them, give the trimmed text |
| Text.SplitWsCons | newtab/js/main.js:161 | a word, a run of white space and text not starting with white space split into the word followed by the split of that text |
| Text.SplitWsInterleave | newtab/js/main.js:161 | the `\s+` split of words joined by runs of white space gives back the words |
| Text.InterleaveSplitWs | newtab/js/main.js:161 | a trimmed text is its split pieces joined by the white space runs between them |
| Text.WordEndFacts | newtab/js/main.js:161 | the run that `\s+` splits off first holds no white space, and only white space or the end stops it |
| Text.SpaceEndFacts | newtab/js/main.js:161 | the separating run is white space only, and only another character or the end stops it |
| Controller.Execute | newtab/js/main.js:369-407 | a command that is refused or aborted leaves the page state unchanged |
| Controller.ArrowIndex | newtab/js/main.js:195-201 | from no selection either arrow selects the first entry; ArrowDown moves to the next entry and wraps from the last to the first; ArrowUp moves back and wraps from the first to the last; the result is always an index of the list |
| ControllerProps.InvInitial | newtab/js/main.js:70-82 | the page starts in a state satisfying the invariant |
| ControllerProps.InvHide | newtab/js/main.js:328-332 | hiding the list keeps the invariant |
| ControllerProps.InvRunCmd | newtab/js/main.js:354-412 | after `runCmd` the invariant holds, from any state |
| ControllerProps.InvInput | newtab/js/main.js:239-288 | the `input` handler, with the correction of Findings (a search-mode edit also drops the inline suggestion), keeps the invariant: selection at least -1, a one-kind list, a shown list non-empty, an inline suggestion non-empty and shown as ghost text; as written the handler breaks it, see `StaleInlineAsWrittenAt` |
| ControllerProps.InvCommandInput | newtab/js/main.js:251-279 | the command-mode branch keeps the invariant |
| ControllerProps.InvHints | newtab/js/main.js:289-308 | a hint response keeps the invariant |
| ControllerProps.InvSelect | newtab/js/main.js:334-352 | selecting keeps the invariant |
| ControllerProps.InvKey | newtab/js/main.js:168-222 | every key keeps the invariant |
| ControllerProps.InvClick | newtab/js/main.js:312-317 | a click keeps the invariant |
| ControllerProps.ModeClassification | newtab/js/main.js:245-251 | command mode exactly when the trimmed text starts with `//`; search mode for any other text with a non-space character; idle exactly when the text is all white space |
| ControllerProps.CommandArgumentGhost | newtab/js/main.js:251-263 | a registered first word with a trailing space hides the list, clears the inline suggestion, and shows the text plus the placeholder as ghost text; the list contents and selection stay as they were |
| ControllerProps.CommandSuggestions | newtab/js/main.js:264-279 | otherwise, in command mode, the ghost is cleared; the list shows exactly the matching registry entries, in registry order, with the selection reset to -1; no match hides the list |
| ControllerProps.KeyPrefixOffered | newtab/js/main.js:268-278 | typing `//` followed by any prefix of a command's name offers that command in a shown list |
| ControllerProps.CompletedKeyGhost | newtab/js/main.js:251-263 | typing a registered key and a space shows the key, the space and its placeholder as ghost text, with the list hidden |
| ControllerProps.HintsShown | newtab/js/main.js:289-308 | the hints are listed de-duplicated with the selection reset; an inline suggestion is set, to the top hint itself, exactly when the top hint extends the query; no hints hide the list |
| ControllerProps.InlineIsStrictExtension | newtab/js/main.js:299 | an inline suggestion is strictly longer than its query, and its lower-cased form starts with that query |
| ControllerProps.HelloWorldScenario | newtab/js/main.js:179-186 | for `hello wor` with hints `hello world`, `hello world cup`, the ghost is `hello world` and Tab puts exactly that into the field, submitting nothing |
| ControllerProps.ArrowUndo | newtab/js/main.js:198-200 | within the list ArrowUp undoes ArrowDown and the other way round |
| ControllerProps.ArrowKeepsSelectionInRange | newtab/js/main.js:194-201 | with the list shown, an arrow key changes only the selection, which becomes an index of the list |
| ControllerProps.InlineCommit | newtab/js/main.js:179-186 | with an inline suggestion, Tab and ArrowRight put it into the field, clear it and its ghost, hide the list and submit nothing |
| ControllerProps.InlineEscape | newtab/js/main.js:187-191 | with an inline suggestion, Escape clears only it and its ghost |
| ControllerProps.InlineEnter | newtab/js/main.js:174-178 | with an inline suggestion, Enter submits it whatever the list shows |
| ControllerProps.EnterWithoutSelection | newtab/js/main.js:202-207 | with no inline suggestion set, the list shown and nothing selected, Enter and Tab change nothing |
| ControllerProps.PlainEnter | newtab/js/main.js:212-221 | with no inline suggestion and no shown list, Enter submits the trimmed text when it is not blank, and otherwise does nothing |
| ControllerProps.ClickIsEnter | newtab/js/main.js:312-317 | when no inline suggestion is set, a click on entry `i` resolves exactly as Enter with entry `i` selected |
| ControllerProps.ClickOverInline | newtab/js/main.js:312-317 | when an inline suggestion is set, a click on hint `i` runs that hint, while Enter with `i` selected runs the inline suggestion (main.js:173-177) |
| ControllerProps.SelectOutOfRange | newtab/js/main.js:335 | a selection outside the list, -1 included, changes nothing |
| ControllerProps.SelectCommandWithPlaceholder | newtab/js/main.js:340-345 | choosing a registry command whose usage line has `<` leaves the key and a space in the field, the list hidden, and the placeholder as ghost text; nothing is run |
| ControllerProps.SelectRuns | newtab/js/main.js:337-351 | choosing any other command runs its key, and choosing a hint runs its text, after the list is hidden |
| ControllerProps.RunCmdResetsSuggestions | newtab/js/main.js:354-358 | `runCmd` always hides the list and clears the inline suggestion and ghost |
| ControllerProps.RunSearch | newtab/js/main.js:360-367 | text that is not a command always clears the field; when not blank it is saved to the history and the page navigates to its search address; blank text does neither |
| ControllerProps.RunCommandClearsOnlyWhenExecuted | newtab/js/main.js:369-411 | a command clears the field exactly when it executed; one that did not run leaves the field and page state unchanged; the history is not touched |
| ControllerProps.UnknownCommandRefused | newtab/js/main.js:404-406 | a command word without a branch gets the unknown-command notice and changes nothing |
| ControllerProps.RegisteredButUnhandled | newtab/js/main.js:66-67 | `//textcolor` and `//setsearch` are found in the registry but have no branch |
| ControllerProps.StyleAndAddiconArguments | newtab/js/main.js:380-403 | `//style` executes, and changes the style, exactly when its argument is `1` or `2`; `//addicon` without an argument is refused with its usage notice |
| ControllerProps.HandledCommands | newtab/js/main.js:371-395 | `//bg` changes only the background, to a video exactly for an `.mp4` address, and persists, or opens the file picker when given no argument; `//addicon` appends exactly one icon, keeping the earlier ones, exactly when its address parses, whose favicon address is built from the parsed host; `//save` only persists; `//clear` empties the board and the background and keeps the style |
| ControllerProps.StyleTyped | newtab/js/main.js:393-399 | typed end to end, `//style` in any case, white space and `1` or `2` set the style to that argument, change nothing else of the page state, and empty the field |
| ControllerProps.BackgroundTyped | newtab/js/main.js:373-378 | typed end to end, `//bg` in any case, white space and an address set the background to that address with its case kept, and empty the field |
| ControllerProps.TypedCommand | newtab/js/main.js:354-372 | running a typed command word and an argument is the command's branch on exactly those two parts, after the list, inline suggestion and ghost are cleared |
| ControllerProps.SearchEditAsWritten | newtab/js/main.js:247-249 | as written, a search-mode edit hides the ghost but keeps the inline suggestion |
| ControllerProps.IdleInput | newtab/js/main.js:281-286 | an edit to nothing but white space hides the list and clears the inline suggestion and the ghost, keeping the last suggestions, the same as written and corrected |
| ControllerProps.SearchEditCorrected | newtab/js/main.js:247-249 | corrected, a search-mode edit clears the inline suggestion with its ghost |
| ControllerProps.StaleInlineAsWrittenAt | newtab/js/main.js:247-249 | as written, a search-mode edit away from a query whose hint was offered inline keeps the stale suggestion, so the invariant fails and Enter submits the old hint |
| ControllerProps.StaleInlineCorrectedAt | newtab/js/main.js:247-249 | corrected, the same edit keeps the invariant and leaves no inline suggestion |
| ControllerProps.StaleInlineAsWritten | newtab/js/main.js:247-249 | as written, typing `x` after `hello world` was offered for `hello wor` breaks the invariant, and Enter searches for `hello world` |
| ControllerProps.StaleInlineCorrected | newtab/js/main.js:247-249 | corrected, the same edit keeps the invariant, and Enter on the open hint list with nothing selected does nothing |
| History.SaveSearch | newtab/js/main.js:462-468 | an empty query changes nothing; afterwards the history has at most 20 entries, and exactly the old count plus one for a new query, cut to 20; a new query comes first, followed by a prefix of the old history; a known query leaves a prefix of the old history; nothing but the query is added |
| History.SaveSearchNoDup | newtab/js/main.js:465 | saving never creates a duplicate |
| History.SaveSearchKeeps | newtab/js/main.js:465-466 | the saved query is in the history afterwards, unless it was already there beyond the first 20 places |
| History.SaveSearchIdempotent | newtab/js/main.js:462-468 | saving a query again, once it is kept, changes nothing |
| SearchUrl.BuildSearchUrl | newtab/js/main.js:485-492 | a blank template gives the Google address plus the encoded query; a template with `%s` has every `%s` replaced by the encoded query; any other template is kept and gets `&q=` (when it has a `?`) or `?q=` and the encoded query appended |
| SearchUrl.QueryAppended | newtab/js/main.js:491 | the address starts with the template and ends with `q=` and the encoded query |
| SearchUrl.PlaceInTemplate | newtab/js/main.js:489-490 | for a trimmed template `p%ss` where `p` has no `%` and `s` no `%s`, the address is `p`, the encoded query, then `s` |
| SearchUrl.ReplaceOnePlace | newtab/js/main.js:490 | replacing the single `%s` place of `p%ss` gives `p`, the replacement, then `s` |
| SearchUrl.DefaultTemplateIsFallback | newtab/js/main.js:80 | the page's default template gives the same address as the fallback for a blank template |
| SearchUrl.TemplateWithoutPlace | newtab/js/main.js:491 | a template without `%s` gets `&q=` appended when it has a `?`, and `?q=` otherwise |
| Version.IsNewerVersion | newtab/js/main.js:495-507 | the loop answers true exactly when, at the first differing component, where a missing component counts as 0, the remote one is larger |
| Version.NewerIrreflexive | newtab/js/main.js:495-507 | no version is newer than itself |
| Version.NewerAsymmetric | newtab/js/main.js:495-507 | two versions are never each newer than the other |
| Version.NewerTransitive | newtab/js/main.js:495-507 | newer is transitive |
| Version.NewerTotal | newtab/js/main.js:495-507 | versions differing in some component are ordered one way or the other |
| Version.NewerIgnoresTrailingZero | newtab/js/main.js:497-503 | a trailing zero component changes no comparison |
| Version.SameVersionPadded | newtab/js/main.js:497-503 | the version strings `1.2` and `1.2.0`, split and parsed as the code does, are not newer than each other |
| Version.PiecesPadded | newtab/js/main.js:496-503 | for any pieces `x`, `y` and a piece `z` that reads as 0, `x.y` and `x.y.z` are not newer than each other |
| Version.PiecesOfThree | newtab/js/main.js:496 | `x.y.z` with pieces free of `.` splits into exactly `x`, `y`, `z` |
| Version.ParseDigit | newtab/js/main.js:496 | `parseInt` of one digit is its value |
| Page.InputSession.constructor | newtab/js/main.js:70-82 | the session starts in the initial state |
| Page.InputSession.HideSuggestions | newtab/js/main.js:328-332 | hides the list, clears the selection and the entries, and keeps the invariant; the outside click of lines 319-326 and the `blur` of lines 554-560 call it |
| Page.InputSession.RunCmd | newtab/js/main.js:354-412 | performs `runCmd` in place, with exactly the effect of `RunCmdStep`, keeping the invariant |
| Page.InputSession.ResetAndRun | newtab/js/main.js:356-411 | hides the list, drops the inline suggestion and its ghost, then runs the parsed text, as `RunParsedStep` says |
| Page.InputSession.RunParsed | newtab/js/main.js:360-411 | a search when the text is no command, the command's branch otherwise |
| Page.InputSession.RunSearch | newtab/js/main.js:360-367 | saves and opens the search for non-blank trimmed text and empties the field, as `SearchStep` says |
| Page.InputSession.RunCommand | newtab/js/main.js:369-411 | dispatches the command and empties the field only when it was executed, as `CommandStep` says |
| Page.InputSession.Dispatch | newtab/js/main.js:369-407 | the command branches change the page state and the effect log exactly as `Execute` says, and nothing else |
| Page.InputSession.InputHandler | newtab/js/main.js:239-288 | the `input` listener with the correction of Findings, with exactly the effect of `InputStep` on the field's text, keeping the invariant |
| Page.InputSession.InputBranches | newtab/js/main.js:247-287 | the branches of the listener on the trimmed, lower-cased text, with the effect of `InputWithQuery`; outside command mode it also drops the inline suggestion (the correction of Findings) |
| Page.InputSession.CommandModeInput | newtab/js/main.js:251-279 | the command-mode branch of the listener, which splits off the first word, with exactly the effect of `CommandInputKeyed` |
| Page.InputSession.CommandModeKeyed | newtab/js/main.js:256-279 | the command-mode branch given the lower-cased first word: placeholder ghost or filtered list, as `CommandInputKeyed` says |
| Page.InputSession.OnInput | newtab/js/main.js:239-288 | an edit of the field to `raw`, with the effect of the corrected `InputStep` |
| Page.InputSession.OnHints | newtab/js/main.js:289-308 | a hint response, with exactly the effect of `HintsStep`, keeping the invariant |
| Page.InputSession.SelectCurrentSuggestion | newtab/js/main.js:334-352 | `selectCurrentSuggestion`, with exactly the effect of `SelectStep` |
| Page.InputSession.OnKey | newtab/js/main.js:168-222 | the `keydown` listener, with exactly the effect of `KeyStep`, keeping the invariant |
| Page.InputSession.OnInlineKey | newtab/js/main.js:173-192 | Enter, Tab, ArrowRight and Escape with an inline suggestion shown, as `InlineKeyStep` says, keeping the invariant |
| Page.InputSession.OnListKey | newtab/js/main.js:195-211 | the keys of the shown, non-empty list, as `ListKeyStep` says, keeping the invariant |
| Page.InputSession.OnClick | newtab/js/main.js:312-317 | a list click, with exactly the effect of `ClickStep` |
| Page.InputSession.OnRunButton | newtab/js/main.js:166 | the run button submits the field's text as it is |

## Left out

- Timers: the 200 ms debounce of the hint request and the 150 ms `blur` delay. A hint response is the event `OnHints`, which may come at any time, as the code does not discard stale responses. The `blur` and the outside click are calls of `HideSuggestions`.
- The hint request itself (`fetchGoogleSuggestions`) is network I/O. Its result is the `hints` argument, and a failed request is the empty sequence.
- IndexedDB, `localStorage`, `loadState` and `saveState` are storage I/O. Saving is the `PersistState` effect, `dbClear` is `ClearStore`, and the history is a field rather than a stored JSON array.
- DOM rendering (`renderBoard`, `applyBackground`, `applyStyle`, `updateCmdSelection`, `repositionCmdList`, the list's HTML) and focus handling are not part of the state logic. `alert` texts are reduced to the `Notice` values, and `window.open` is the `Navigate` effect.
- The file picker's result after `//bg` without an argument is left out: only the `OpenFilePicker` effect is recorded.
- `encodeURIComponent` and `new URL(…).hostname` are foreign calls. They are parameters of `Env`.
- The `Date.now()` identifier of a new icon is a clock reading and is dropped from `Item`.
- `checkForUpdates` (network and browser API), `recordSite`, drag-and-drop reordering, `newtab/js/yt-music-controller.js` and `newtab/background.js` are not part of this model.
- The page markup is not part of this model. The list is taken to be hidden at load.
- Text.Lower: only the ASCII capitals A-Z, the Cyrillic capitals U+0400-U+042F and Ґ (U+0490) are mapped. The rest of Unicode case mapping is not modelled, and neither are UTF-16 code units.
- Version.ParseIntOrZero: numbers are unbounded integers. The model does not capture the precision loss of `parseInt` beyond 2^53.
- `BuildSearchUrl`: the `$` patterns that `String.prototype.replace` interprets in a replacement string are not modelled. An encoded query never contains `$`, because `encodeURIComponent` escapes it.
- Page.InputSession.InputBranches: runs the corrected search-mode edit of Findings. The session also drops the inline suggestion where newtab/js/main.js:247-249 clears only the ghost text; the code as written is `InputStepAsWritten`, about which `StaleInlineAsWrittenAt` and `SearchEditAsWritten` are proved.
- Page.InputSession.InputHandler: has the effect of the corrected `InputStep`, not of the handler as written, for the same reason.
- Page.InputSession.OnInput: has the effect of the corrected `InputStep`, not of the handler as written, for the same reason.
- ControllerProps.InvInput: is proved for the corrected handler only. As written, a search-mode edit after an inline suggestion was offered breaks the invariant's "an inline suggestion is shown as ghost text" part (`StaleInlineAsWrittenAt`).
- The `OnHints` query `q` is taken as given. The model does not tie it to the text the field held when the request was made.

## Findings

| source | as written | input that shows it | evidently intended | confidence | as-written member | corrected member |
|---|---|---|---|---|---|---|
| newtab/js/main.js:247-249 | a search-mode edit clears the ghost text but not `state.currentInlineSuggestion` | type `hello wor`, receive the hint `hello world`, type `x`, and press Enter before the next hint response arrives (the 200 ms debounce plus the request): the field reads `hello worx` with no ghost, yet Enter searches for `hello world` (Tab would put `hello world` into the field) | the inline suggestion is cleared with its ghost text, as everywhere else in the file | not executed | ControllerProps.StaleInlineAsWritten | ControllerProps.StaleInlineCorrected |
