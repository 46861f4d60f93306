# talon_recall, modelled in Dafny

talon_recall gives windows spoken names. A user saves the focused window under
a name and later says the name to bring the window back. If the window has
closed, a terminal is relaunched in its last directory. Saved names can carry
aliases, a default shell command and an auto-assign flag. Forgotten names go to
an archive they can be revived from.

This project models the decision logic of that system as pure functions over
immutable data:

- **Registry.** Two ordered maps, the active names and the archive. `Dicts`
  models them as association lists with Python's insertion-order semantics:
  writing an existing key keeps its place, a new key is appended, and `del`
  removes. `RecallState` adds the entry records, the storage document, the
  spoken-name map and the pending-command state.
- **Identity edits** (`Recall`): save, detach, forget, forget-all, purge,
  combine, promote, rename, add and remove alias, set and clear the default
  command, and toggle auto-assign. Also the refresh `recall_window` performs
  and the three window-event hooks (close, title change, focus auto-assign).
- **Window resolution** (`RecallCommands`, `RecallLifecycle`). A window
  enumeration is a sequence of applications, each with its windows in host
  order. Finding by handle, rematching by path or title, and the
  post-launch poll are first-match scans over that enumeration. The poll runs
  over a sequence of successive enumerations, 20 for revive and 40 for
  restore.
- **Terminal titles** (`RecallTerminal`): the three-strategy title-to-directory
  parser, with `isdir` and `expanduser` passed in as functions, and the choice
  of how a terminal is launched.
- **Two-step commands** (`RecallPending`): combine, rename and alias started
  by one utterance and finished by the next.
- **Small helpers** (`RecallOverlay`, `ModeIndicator`): resolving a stored
  command for display and for running, the pill overlap test, and the speech
  mode indicator's classification and colours.

Host effects are modelled as values. Focusing a window, typing text, pressing
a key, spawning a program and running a registered terminal launcher are
`HostAction` values that the lifecycle functions return in order. The clock
is a `now` parameter. The forbidden-word list, the command list and the set of
registered launchers are parameters too.

## Model

| member | source | states |
|---|---|---|
| RecallState.IsForbiddenIgnoresCase | recall_state.py:62-64 | a name is forbidden exactly when its lower-cased form is; the test looks at the list's values only |
| RecallState.SaveDocument | recall_state.py:84-91 | the saved document holds every active entry under its own name, plus `_archive` with the whole archive when the archive is non-empty, and nothing else |
| RecallState.SplitDocument | recall_state.py:73-76 | on load, `_archive` becomes the archive (empty when absent) and every other top-level key an active entry holding the stored value, in document order; the document is rejected exactly when `_archive` holds an entry or another key holds an archive |
| RecallState.LoadSaved | recall_state.py:67-81 | a missing file leaves both maps as they were; a read or parse failure empties both; a well-formed document replaces both with what it holds |
| RecallState.SaveLoadRoundTrip | recall_state.py:67-91 | loading what save wrote gives back both maps exactly, provided no active entry is named `_archive` |
| RecallState.AliasWrites | recall_state.py:103-104 | writing an entry's aliases points each alias at the owner and leaves every other spoken form as it was |
| RecallState.NameMapLastWriteWins | recall_state.py:96-113 | a spoken form points at the last entry, in map order, that has it as name or alias |
| RecallState.NameMapDomain | recall_state.py:96-113 | a spoken form is in the name map exactly when some entry has it as its name or one of its aliases; no entries gives an empty map |
| RecallState.CancelPending | recall_state.py:116-121 | cancelling clears mode and name and disables the pending context |
| RecallCommands.FirstMatch | recall_commands.py:18-22 | the nested app/window scan returns the first window, in enumeration order, meeting the condition, and None exactly when no window meets it |
| RecallCommands.FindWindowById | recall_commands.py:14-22 | no handle finds nothing; otherwise the result is the first window carrying exactly that handle, and None exactly when no window has it |
| RecallCommands.RematchWindow | recall_commands.py:25-44 | the rematch is the first window of the same application with positive size whose title contains the saved path or starts with the saved title (each only when non-empty), and None exactly when there is none |
| RecallCommands.RematchOnlySameApp | recall_commands.py:33-37 | a rematched window always belongs to an application with the entry's application name |
| RecallCommands.RematchNeedsPathOrTitle | recall_commands.py:39-44 | with no saved path and an empty saved title nothing is ever rematched |
| RecallCommands.ResolveCommand | recall_commands.py:47-61 | a command name resolves to its shell command; anything else, including a shell command itself, resolves to itself |
| RecallCommands.TypedLine | recall_commands.py:67-72 | with a non-empty path the typed line is `cd <path> && ` followed by the command and nothing else; without one it is the command alone |
| RecallCommands.RunWhenReady | recall_commands.py:64-74 | running a command is: focus the window, type the line, then exactly one Enter and no other key press |
| RecallTerminal.TerminalAppsExact | recall_terminal.py:15-24 | the terminal list has ten names and is matched case-sensitively |
| RecallTerminal.PromptCandidateAt | recall_terminal.py:36-37 | the prompt pattern matches at the first `@` and the first `:` after it, and its candidate is everything after that colon, trimmed |
| RecallTerminal.PromptMatchIff | recall_terminal.py:36-40 | the prompt pattern matches exactly when some `@` is followed by a `:` with at least one character after it |
| Text.StripKeeps | recall_terminal.py:45 | stripping keeps the piece of the string left after cutting whitespace-only runs from both ends |
| Text.Words | recall_terminal.py:52 | `split()` yields the whitespace-separated words of the string, in order |
| Text.WordsUnique | recall_terminal.py:52 | any sequence of words that spells out the string with whitespace between them is what `split()` yields |
| Text.SplitSeparators | recall_terminal.py:43 | the split yields separator-free pieces that, with one em dash or pipe between neighbours, spell out the string |
| Text.SplitSeparatorsUnique | recall_terminal.py:43 | any separator-free pieces that spell out the string that way are what the split yields |
| Text.JoinSpaceTokenizes | recall.py:465 | joining words with single spaces gives a trimmed string whose words are the joined ones |
| Text.WordsJoinSpace | recall.py:465 | splitting a space-joined list of words gives the words back |
| RecallTerminal.Segments | recall_terminal.py:43-45 | the segment candidates are, in order, the trimmed pieces of the title cut at em dashes and pipes |
| RecallTerminal.Tokens | recall_terminal.py:52-53 | the token candidates are the title's whitespace-separated words, in order |
| RecallTerminal.ParseTitlePath | recall_terminal.py:27-60 | a result is always an existing directory and the expanded form of a path-like candidate from one of the three strategies; which candidate wins is stated by the three strategy lemmas and `ParseNoneIffNothingQualifies` below |
| RecallTerminal.PromptStrategyFirst | recall_terminal.py:36-40 | a prompt candidate that is a directory wins over every segment and token |
| RecallTerminal.SegmentStrategySecond | recall_terminal.py:43-49 | without a usable prompt candidate, the first path-like segment that is a directory wins over every token |
| RecallTerminal.TokenStrategyThird | recall_terminal.py:51-57 | without a usable prompt candidate or qualifying segment, the first path-like token that is a directory is the result |
| RecallTerminal.ParseNoneIffNothingQualifies | recall_terminal.py:52-60 | the parser gives nothing exactly when no strategy has a candidate that qualifies |
| RecallTerminal.DetectTerminalPath | recall_terminal.py:63-69 | the detected path is the title parser's answer, so it is always an existing directory |
| RecallTerminal.LaunchTerminal | recall_terminal.py:78-85 | a registered launcher is used exactly when the application has one; otherwise the lower-cased application name runs with `--working-directory=<path>` as its one argument |
| Recall.AppendIfAbsent | recall.py:138-141 | appending a name keeps the old list as a prefix, always contains the name afterwards, adds it at the end only when it was missing, and keeps the list free of repeats |
| Recall.SaveWindow | recall.py:123-176 | a forbidden name changes nothing. A window already saved under another name adds this name once to that entry's aliases, and no name appears or vanishes. Otherwise the entry under `name` is rebuilt from the window and keeps only its old aliases, so its command and auto-assign flag go; a new name goes last in the key order and an existing one keeps its slot. Every other entry and the archive stay as they were |
| Recall.SaveWindowIdempotent | recall.py:123-176 | saving the same window under the same name twice leaves the registry as the first save did, when the handle lookup answers the same way both times |
| Recall.SavedTerminalPathIsDirectory | recall.py:147-152 | a path recorded for a terminal is always an existing directory |
| Recall.Detach | recall.py:178-185 | detaching clears only the entry's window handle; an unknown name changes nothing |
| Recall.Forget | recall.py:229-242 | forgetting moves the entry, unchanged, into the archive with the given time and removes it from the active map; the other active names keep their order, and the name goes last in the archive unless it was already there, where it keeps its slot; an unknown name changes nothing |
| Recall.ArchiveAll | recall.py:100-104 | archiving several entries files each one, unchanged and with the given time, under its name and keeps the rest of the archive |
| Recall.ForgetAll | recall.py:244-252 | forgetting everything empties the active map and archives every entry verbatim with the given time |
| Recall.Purge | recall.py:327-335 | purging only ever removes the name from the archive, the other archived names keeping their order; the active map is untouched |
| Recall.CombinedAliases | recall.py:386-398 | the merged alias list keeps the primary's aliases as a prefix and holds exactly those, the secondary's name and its aliases other than the primary's name, without repeats when the primary had none |
| Recall.CombinedAliasesTail | recall.py:386-398 | after the primary's aliases come the secondary's name when it is new, then the secondary's aliases, in the order of their first occurrences in the secondary's name followed by its aliases; nothing is added twice or added when the primary already had it |
| Recall.CombinedAliasesTailMembers | recall.py:386-398 | the names added are exactly the secondary's name and aliases that the primary had neither as an alias nor as its own name |
| Recall.CombinedAliasesDetermined | recall.py:386-398 | the merged list equals the primary's aliases followed by any repeat-free list that has exactly the added names in first-occurrence order, so that order pins the result down |
| Recall.CombinedAliasesRepeat | recall.py:386-398 | a secondary named `s` with aliases `x, y, x` adds `s, x, y` to a primary with no aliases: a repeated alias is added once, where it first occurs |
| Recall.Combine | recall.py:378-409 | combining removes the secondary, gives the primary the merged aliases and the secondary's path only when its own is empty, and leaves every other entry; the remaining names keep their order, the primary in its slot; a missing name or combining a name with itself changes nothing |
| Recall.CombineKeepsAllNames | recall.py:386-398 | after combining, every name the two entries answered to, other than the primary's own name, is an alias of the primary |
| Recall.RemoveVariants | recall.py:515 | dropping the variants of a spoken form removes exactly the aliases equal to it once lower-cased and keeps the list free of repeats |
| Recall.RemoveVariantsKeepsOrder | recall.py:515 | the aliases that stay keep their order |
| Recall.RemoveVariantsCounts | recall.py:515 | every occurrence of a variant goes and every other alias stays as often as it occurred |
| Recall.PromoteScan | recall.py:497-505 | the promote scan stops at the first entry whose name or one of whose aliases matches the spoken form |
| Recall.Promote | recall.py:489-527 | a forbidden name changes nothing. When the scan stops at an alias, that entry is re-keyed under the spoken name as said, loses every case variant of it from its aliases, and gains its old name as an alias; an entry already stored under the spoken name is replaced by it, and every other entry stays. When no alias owner is found first, nothing changes |
| Recall.PromoteOrder | recall.py:515-522 | after a promotion the owner's old name is gone from the key order, the spoken name is last unless it was already a key (then it keeps that slot), and the other names keep their order |
| Recall.PromoteSpokenOrder | recall.py:515-522 | the same key order for the promotion once the spoken form is known |
| Recall.PromoteOverwritesLaterName | recall.py:497-522 | an entry named like the spoken form that comes after the alias owner is never looked at and is lost to the promotion |
| Recall.PromoteGuarded | recall.py:497-502 | with the already-canonical test applied to every entry, a name some entry already has changes nothing, and otherwise the promotion is the program's |
| Recall.PromoteGuardedKeepsOthers | recall.py:497-522 | a guarded promotion keeps every entry other than the one it re-keys, unchanged |
| Recall.PromotedAliasesDistinct | recall.py:510-514 | promoting keeps an entry's aliases free of repeats when its old name was not already one of them |
| Recall.PromoteMayRepeatAlias | recall.py:510-514 | an entry listing its own name as an alias ends up with that name twice after a promote |
| Recall.PromoteIdempotent | recall.py:489-527 | a second promote of the same name changes nothing, when at most one entry owns a variant of it |
| Recall.PromoteTwiceMayDiffer | recall.py:489-527 | with two entries sharing an alias, a second promote re-keys the other owner, so promote is not idempotent in general |
| Recall.Rename | recall.py:529-544 | renaming moves the same record to the new name and overwrites whatever was there; a forbidden new name or an unknown old name changes nothing |
| Recall.RenameOrder | recall.py:536-541 | after a rename the old name is gone from the key order, the new name is last unless it was already a key (then it keeps that slot), and the other names keep their order |
| Recall.AddAlias | recall.py:546-564 | the alias is appended to the entry's aliases only when absent; a forbidden alias or an unknown name changes nothing |
| Recall.AddAliasIdempotent | recall.py:546-564 | adding the same alias twice is the same as adding it once |
| Recall.AddAliasMayAddOwnName | recall.py:546-564 | an entry can be given its own name as an alias |
| Recall.RemoveAlias | recall.py:566-580 | the case variants of the alias are removed from the first entry that has one, and from no other entry; no name appears or vanishes |
| Recall.SetCommand | recall.py:582-592 | setting a command changes only that entry's command |
| Recall.ClearCommand | recall.py:594-600 | clearing a command removes only that entry's command |
| Recall.ClearUndoesSet | recall.py:582-600 | clearing undoes setting, for an entry that had no command |
| Recall.ToggleAutoAssign | recall.py:607-616 | toggling flips only that entry's auto-assign flag |
| Recall.ToggleTwice | recall.py:607-616 | toggling twice restores the registry |
| Recall.CleanupClosedWindows | recall.py:107-118 | a closed window's handle is cleared from the first entry holding it, and only there; names and the archive stay |
| Recall.OnTitleChange | recall.py:706-718 | the first entry holding the window's handle takes the directory parsed from the new title, and the new title, when that directory differs from its saved path; whatever the application; otherwise nothing changes |
| Recall.TryAutoAssign | recall.py:39-60 | a newly focused window is attached to the first auto-assign entry of its application, not named with a leading `_`, whose window is gone; nothing else changes |
| Recall.RefreshPath | recall.py:207-212 | only a terminal's path changes, and only to a directory its window title yields |
| Recall.RecallWindow | recall.py:187-221 | a live handle is used as is; otherwise a rematch stores the new handle and title; the terminal path is then refreshed from the title; no other entry changes |
| Recall.RematchPersistsHandle | recall.py:193-201 | after a rematch the entry stores the rematched window's handle, and looking that handle up in the same enumeration succeeds |
| RecallLifecycle.KnownIds | recall.py:273-277 | the pre-launch handles are exactly the handles of the application's windows in the earlier enumeration |
| RecallLifecycle.Poll | recall.py:281-294 | the poll finds the first match in the first enumeration that has one, within the budget, and finds nothing exactly when every enumeration in the budget has no match |
| RecallLifecycle.PolledWindowIsNew | recall.py:285-290 | a polled window belongs to the application, has positive width, and was not there before the launch |
| RecallLifecycle.LaunchAction | recall_terminal.py:78-85 | a registered launcher runs when the application has one; otherwise the lower-cased name is spawned with the working-directory argument |
| RecallLifecycle.CommandActions | recall.py:310-315 | the default command is typed only when it is set and resolves to a non-empty shell command |
| RecallLifecycle.Adopt | recall.py:296-315 | an adopted window is stored with its handle and title under the name and focused, then the default command runs; the name goes last in the key order when new and keeps its slot otherwise; on timeout only the launch happened |
| RecallLifecycle.Revive | recall.py:254-317 | revive refuses a name not archived, a non-terminal or pathless entry, and a missing directory. Otherwise it launches and polls up to 20 times. On success the entry moves from the archive to the active map with the new handle and title, last in the active order unless the name was already active, and the other archived names keep their order. On timeout both maps are unchanged |
| RecallLifecycle.ReviveThenForget | recall.py:229-317 | forgetting a revived name puts it back in the archive with the new handle and title |
| RecallLifecycle.RestoreLaunch | recall.py:638-661 | a restore launches only for an existing directory: VS Code as `code <path>`, a terminal through its launcher; anything else falls back to recalling |
| RecallLifecycle.FallBack | recall.py:653-661 | the fallback is exactly a recall of the name, focusing the window it finds |
| RecallLifecycle.Restore | recall.py:629-703 | restore ignores an unknown name and falls back to recalling when there is nothing to launch. Otherwise it launches and polls up to 40 times. On success the entry gets the new handle and title, the window is focused and the default command runs. On timeout nothing changes |
| RecallLifecycle.RestoredIsRecalled | recall.py:688-691 | after a restore, recalling the name finds the new window by its handle while it lives |
| RecallPending.Normalize | recall.py:464-466 | the finishing utterance is trimmed; a trimmed string is kept as it is |
| RecallPending.NormalizePhrase | recall.py:464-466 | a phrase of words becomes exactly its words joined by single spaces, which split back into those words |
| RecallPending.Begin | recall.py:411-435 | starting a two-step command on a saved name records the mode and name and enables the pending context, overwriting any pending command; an unknown name changes nothing |
| RecallPending.CombineStart | recall.py:411-422 | a combine starts pending on a saved primary name only |
| RecallPending.RenameStart | recall.py:424-435 | a rename starts pending on a saved name only |
| RecallPending.Finish | recall.py:460-487 | finishing always clears the pending state, and runs the pending combine, rename or alias only when mode, name and utterance are all non-empty |
| RecallPending.AliasStart | recall.py:437-458 | while an alias is pending the argument finishes it; otherwise an alias command starts on a saved name |
| RecallPending.HideOverlay | recall.py:373-376 | hiding the overlay cancels whatever is pending and keeps the registry |
| RecallPending.TransitionsKeepWellFormed | recall.py:411-487 | every transition keeps the context enabled exactly while a command is pending |
| RecallPending.FinishTwice | recall.py:460-487 | a second utterance after a finish changes nothing |
| RecallPending.CombineInTwoSteps | recall.py:411-487 | start-then-finish of a combine is the one-step combine |
| RecallPending.RenameInTwoSteps | recall.py:424-487 | start-then-finish of a rename is the one-step rename |
| RecallPending.AliasInTwoSteps | recall.py:437-487 | two alias utterances add the second, trimmed, as an alias of the first |
| RecallOverlay.FindValue | recall_overlay.py:76-78 | the reverse lookup finds the first command whose shell command is the given one, and nothing when there is none |
| RecallOverlay.ResolveCommandDisplay | recall_overlay.py:69-79 | a command name shows as itself; a shell command shows as the first name mapped to it; anything else as itself |
| RecallOverlay.ResolveCommandShell | recall_overlay.py:82-91 | a command name runs its shell command; anything else runs as given |
| RecallOverlay.ShellAgreesWithLauncher | recall_overlay.py:82-91 | the overlay's shell resolver and the launcher's resolver agree on every input |
| RecallOverlay.ShellOfDisplay | recall_overlay.py:69-91 | resolving what is displayed runs the same command as resolving what is stored |
| RecallOverlay.PillsOverlapSymmetric | recall_overlay.py:103-106 | pill overlap is symmetric |
| RecallOverlay.TouchingPillsDoNotOverlap | recall_overlay.py:103-106 | pills that only touch along an edge do not overlap |
| RecallOverlay.OverlapIffCommonPoint | recall_overlay.py:103-106 | pills of positive size overlap exactly when they share an interior point |
| ModeIndicator.ModeOf | mode_indicator.py:112-122 | sleep wins over every mode; dictation is mixed alongside command and dictation alone; command alone is command; none of the three is other; the result always has a colour and is never mute |
| ModeIndicator.ModeOfIgnoresOthers | mode_indicator.py:112-122 | only the sleep, dictation and command modes affect the classification |
| ModeIndicator.ModeColor | mode_indicator.py:51-54 | no microphone shows the mute colour; otherwise the mode's colour, and the other colour for an unknown mode |
| ModeIndicator.MuteColourIffNoMicrophone | mode_indicator.py:33-54 | the indicator is black exactly when no microphone is selected |

### Expectations the model checks against the code

- The title parser's docstring (recall_terminal.py:31) lists other separators.
  The code splits segments only on em dash and pipe, and the model does the
  same.
- Repeating an operation is not always harmless. Toggling auto-assign is an
  involution, not idempotent (`Recall.ToggleTwice`). Promote is idempotent only
  when a single entry owns the spoken form as an alias
  (`Recall.PromoteIdempotent`). Otherwise a second promote re-keys another
  entry (`Recall.PromoteTwiceMayDiffer`).
- Alias lists can hold repeats. Save, add-alias and combine keep a
  repeat-free list repeat-free. But an entry can be given its own name as an
  alias (`Recall.AddAliasMayAddOwnName`), and a later promote then lists that
  name twice (`Recall.PromoteMayRepeatAlias`).
- Aliases are not unique across entries, and no contract assumes they are.

## Left out

- Recall.SaveWindow: `find_name_for_window_id` is not part of this model. Its answer is the parameter `owner`, which must name an active entry holding the window's handle.
- One shared registry is assumed. recall.py imports `saved_windows` and `archived_windows` by name (recall.py:25-30), while `load_saved_windows` rebinds those module globals (recall_state.py:69-81). After a load, recall.py keeps working on the dictionaries bound at import, and `save_to_disk` and `update_window_list` see the loaded ones. The model has one registry, which all operations read and write.
- Recall.SaveWindowIdempotent: holds only when the handle lookup gives the same answer on both calls, because the lookup is a parameter.
- Recall.PromoteIdempotent: requires a single entry owning the spoken form as an alias, because without that the source is not idempotent (see `Recall.PromoteTwiceMayDiffer`).
- Recall.ForgetAll: all entries share one timestamp; the source reads the clock once per entry.
- RecallState.LoadSaved: a document whose values have the wrong shape counts as a load failure. JSON decoding is not modelled.
- RecallTerminal.ParseTitlePath: `isdir` and `expanduser` are total functions, so the exception path (recall_terminal.py:58-60) is reached only as "no candidate". Titles are single-line, so the regex's newline handling is not modelled.
- Text.Lower: lower-casing is ASCII-only; Python's full Unicode case mapping is not modelled.
- RecallTerminal.LaunchTerminal: the platform launcher table is a set of application names. What a registered launcher does is opaque (the `RunLauncher` action).
- The Code branch of `restore_window` spawns `code <path>` through `subprocess.Popen`; it is the `Spawn` action.
- Host calls are left out: window enumeration beyond handle, title and size; focusing, typing and key presses beyond the returned action list; sleeps between polls; `actions.mimic`.
- File I/O, JSON encoding and logging of save failures (recall_state.py:84-93) are left out. Only the document's map-level shape is modelled.
- Spoken-form generation (`create_spoken_forms_from_map`) is external. Only the spoken-name map handed to it is modelled.
- The persistent-highlight setting, window highlighting, the overlay, the help and flash messages, and all drawing are presentation only.
- The mode indicator's drawing, position settings and microphone polling are left out; only the classification and colour lookup are modelled.
- Actions that only combine modelled ones with host input are left out: `recall_window_and_enter`, `recall_number`, `recall_window_and_mimic`, `dictate_to_window`, `dictate_to_window_and_enter`, the list and status displays, `recall_edit_commands`, `recall_toggle_border`, `_on_focus_change` beyond auto-assign, `_on_screen_change` and `on_ready`.
- clear_text_commands.py and recall_core.py are not part of this model. They only send key presses or open an editor.

## Findings

| source | as written | input that shows it | evidently intended | confidence | as-written member | corrected member |
|---|---|---|---|---|---|---|
| recall.py:497-522 | the "already canonical, nothing to do" test runs only on entries before the first alias owner; `saved_windows[spoken_name] = info` then replaces an entry stored under the spoken name further down | entries `a` (aliases `["ed"]`) then `ed`; promote `ed` leaves one entry, `ed`, holding `a`'s record | a name some entry already has stops the promotion wherever that entry is, so no entry is lost | medium; not executed | Recall.PromoteOverwritesLaterName | Recall.PromoteGuarded |
