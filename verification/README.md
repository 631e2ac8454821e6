# CodeNest client logic in Dafny

CodeNest is a collaborative code editor with a React client. This project
models the small pieces of sequential logic inside that client and proves
properties about them:

- the keyboard-shortcut hook and the shortcut hint panel that reads it;
- the join forms on the home page and in the enhanced form;
- the login submit handler;
- the editor page's join decision;
- the drawing board, the demo chat and the demo code editor;
- the animated form input;
- the room panel, the chat list, the run panel and the shared drop-down.

Every component is a set of pure functions over an explicit state record. A
handler does not call the router, the socket, browser storage, the clipboard
or toasts. It returns the `Effect`s it would perform, in order (module
`Effects`). Answers from the outside world are parameters:

- a backend reply;
- whether a clipboard write succeeded;
- the user's answer to a confirmation dialog;
- the values `Math.random` drew.

Timers are events the caller fires: the hint panel's show and hide timers,
the 100 ms typing tick, the 800 ms activity interval, the 1500 ms reset and
hide timers, the 500 ms active-hotkey timer, and the drawing board's 3 s
interval on which the simulated collaborator may draw.

Modules, one per source component, plus shared ones:

- `Wrappers`: `Option`.
- `Text`: JavaScript's `trim`, `toLowerCase`/`toUpperCase`, `split` and `join` with a one-character separator, and the default string order.
- `Sorting`: `Array.prototype.sort` as an insertion sort by a string key.
- `Effects`: the effect values, statuses and the user record.
- `Hotkeys`, `ShortcutHint`, `Validation`, `HomePage`, `EnhancedForm`, `Login`, `EditorPage`, `DrawingBoard`, `ChatInterface`, `CodeEditor`, `AnimatedInput`, `UsersView`, `ChatList`, `RunView`, `Select`.

The hotkey matcher is the central piece. It keeps the held keys as a set
(a duplicate-free sequence, in insertion order). After every handled key
event it compares `sort().join('+')` of the held keys with the same form of
each registered hotkey, and fires the first match. Because that canonical
form is a joined string it is not injective. In the model, where a key name
is any string, the single key `"a+b"` and the chord `a`, `b` look the same
(`Hotkeys.CanonicalNotInjective`), and a hotkey that repeats a key fires when
a key named `"a+a"` is held (`Hotkeys.RepeatedKeyMatchesPlusKey`). No
`KeyboardEvent.key` value is such a name, so in a browser only the hotkey
side of these collisions matters: a registered hotkey whose key names
contain `+`.

The matcher is level-triggered. React gives every handled key-down a new
`Set`, so the matching effect runs again even when the held keys did not
change. An auto-repeated key-down of a held chord therefore fires its
callback again (`Hotkeys.AutoRepeatRefires`). Reading the hook as firing
once per transition into the matching set does not fit the code, and the
model follows the code.

## Model

| member | source | states |
|---|---|---|
| Hotkeys.KeyDown | client/src/hooks/useHotkeys.ts:16-29 | a key-down from an input, textarea or select changes nothing and fires nothing; any other adds the lower-cased key to the held set (and nothing else) and re-runs matching |
| Hotkeys.KeyUp | client/src/hooks/useHotkeys.ts:32-39 | a key-up removes the lower-cased key whatever the target, keeps every other held key, and re-runs matching |
| Hotkeys.RepressKeepsPressed | client/src/hooks/useHotkeys.ts:24-29 | pressing a key that is already held leaves the held set unchanged |
| Hotkeys.ReleaseUnheldKeepsPressed | client/src/hooks/useHotkeys.ts:33-37 | releasing a key that is not held leaves the held set unchanged |
| Hotkeys.EventsKeepValid | client/src/hooks/useHotkeys.ts:24-38 | after any key event each held name occurs once and contains no upper-case letter |
| Hotkeys.FirstMatch | client/src/hooks/useHotkeys.ts:54-69 | the result is the first hotkey in registration order whose canonical form equals the held keys' (with at least one key held); none is returned iff no hotkey matches |
| Hotkeys.Evaluate | client/src/hooks/useHotkeys.ts:52-71 | at most one hotkey fires, the first matching one; the active hotkey becomes its canonical string, which is also the held keys' canonical string; with no match the active hotkey is unchanged; the held keys never change |
| Hotkeys.ClearActive | client/src/hooks/useHotkeys.ts:64-66 | the 500 ms timer clears the active hotkey and nothing else |
| Hotkeys.AutoRepeatRefires | client/src/hooks/useHotkeys.ts:25-29 | a key-down that fired a hotkey, repeated, fires the same hotkey again |
| Hotkeys.CanonicalPermutationInvariant | client/src/hooks/useHotkeys.ts:56-57 | two key lists with the same elements (as multisets) have the same canonical form |
| Hotkeys.EmptyNeverMatches | client/src/hooks/useHotkeys.ts:59 | with no key held nothing fires and the active hotkey is kept, even for a hotkey with no keys |
| Hotkeys.CanonicalNotInjective | client/src/hooks/useHotkeys.ts:56-57 | `["a+b"]` and `["a","b"]` differ as multisets but share the canonical form |
| Hotkeys.UpperCaseKeyNeverMatches | client/src/hooks/useHotkeys.ts:24 | a hotkey containing a key with an upper-case letter never matches a reachable held set |
| Hotkeys.CanonicalRecoversSorted | client/src/hooks/useHotkeys.ts:56-57 | when no key name contains "+", splitting the canonical form at "+" gives the sorted keys back |
| Hotkeys.RepeatedKeyNeverMatches | client/src/hooks/useHotkeys.ts:56-59 | a hotkey naming one key twice never matches a reachable held set, provided no key name contains "+" |
| Hotkeys.RepeatedKeyMatchesPlusKey | client/src/hooks/useHotkeys.ts:56-59 | in the model, where a key name is any string, the hotkey `a`, `a` matches the held set `{"a+a"}` |
| Hotkeys.TypingInTextFieldScenario | client/src/hooks/useHotkeys.ts:18-22 | typing "a" into an input from the initial state keeps the initial state and fires nothing |
| Hotkeys.ReleaseIntoChordScenario | client/src/hooks/useHotkeys.ts:32-61 | holding Control, Shift and K and releasing Shift fires the Control+K hotkey with active hotkey "control+k" |
| ShortcutHint.ShowTimerFires | client/src/components/ShortcutHint.tsx:16-25 | the first timer shows the panel and marks it as shown |
| ShortcutHint.HideTimerFires | client/src/components/ShortcutHint.tsx:23-26 | the second timer hides the panel and leaves the shown mark |
| ShortcutHint.KeyPress | client/src/components/ShortcutHint.tsx:34-42 | only "?" changes the panel, only after it was first shown, and then it flips visibility |
| ShortcutHint.ToggleTwiceRestores | client/src/components/ShortcutHint.tsx:35-38 | pressing "?" twice returns the panel to its previous state |
| ShortcutHint.HiddenUntilShown | client/src/components/ShortcutHint.tsx:35 | before the first showing, no sequence of key presses changes the panel |
| ShortcutHint.Close | client/src/components/ShortcutHint.tsx:69-71 | the close button hides the panel |
| ShortcutHint.KeyLabel | client/src/components/ShortcutHint.tsx:50 | " " reads "Space"; any other key reads as itself upper-cased, character by character |
| ShortcutHint.FormatKeys | client/src/components/ShortcutHint.tsx:45-54 | n keys give 2n-1 tokens: key caps at even positions in key order, "+" between each consecutive pair |
| ShortcutHint.SeparatorCount | client/src/components/ShortcutHint.tsx:52 | n > 0 keys render with exactly n-1 "+" signs |
| ShortcutHint.RenderRow | client/src/components/ShortcutHint.tsx:82-100 | a row is highlighted iff the active hotkey equals the shortcut's canonical form; the shortcut's keys are left sorted in place, and they are what is displayed |
| ShortcutHint.View | client/src/components/ShortcutHint.tsx:79-101 | nothing renders iff the panel is hidden; otherwise one row per shortcut, in order |
| ShortcutHint.RowKeysSorted | client/src/components/ShortcutHint.tsx:84 | after rendering, each shortcut's keys are sorted and are a permutation of the keys given |
| ShortcutHint.RenderStable | client/src/components/ShortcutHint.tsx:84-99 | rendering again over the list the first render sorted gives the same rows and list |
| ShortcutHint.FiredHotkeyHighlighted | client/src/components/ShortcutHint.tsx:84-89 | after a hotkey fires, a shortcut row with the same keys in any order is highlighted |
| Validation.Validate | client/src/pages/homepage.tsx:82-113 | the first failing check in the fixed order: blank username, blank room id, room id under 5, username under 3 (trimmed lengths in UTF-16 code units); no error iff trimmed username ≥ 3 and trimmed room id ≥ 5 |
| Validation.ValidateByLengths | client/src/pages/homepage.tsx:82-113 | the verdict depends only on the two trimmed lengths |
| Validation.AstralCharCountsTwice | client/src/pages/homepage.tsx:83 | `length` counts a character outside the Basic Multilingual Plane as two code units |
| Validation.LengthCountsCodeUnits | client/src/pages/homepage.tsx:104-111 | a two-character username passes the three-character minimum iff its second character is outside the Basic Multilingual Plane (both characters non-blank) |
| Validation.BlankUsernameReportedFirst | client/src/pages/homepage.tsx:83-89 | a username of only white space is reported whatever the room id |
| Validation.RoomIdCheckedBeforeUsernameLength | client/src/pages/homepage.tsx:97-111 | with both too short, the room id's error is the one reported |
| Validation.ValidateIgnoresPadding | client/src/pages/homepage.tsx:82-113 | trimming the inputs first never changes the verdict |
| HomePage.HandleJoinRoom | client/src/pages/homepage.tsx:67-80 | an invalid form shows exactly its error toast, with no storage write and no navigation; a valid one stores the untrimmed username and navigates to "/editor/" + the untrimmed room id with the username in state |
| HomePage.JoinNavigatesIffValid | client/src/pages/homepage.tsx:67-80 | a join navigates iff the trimmed username has ≥ 3 and the trimmed room id ≥ 5 UTF-16 code units |
| HomePage.CreateNewRoomId | client/src/pages/homepage.tsx:57-62 | a generated room id has exactly 6 characters, each from a–z or 0–9, the one each random draw picks |
| HomePage.DrawsFor | client/src/pages/homepage.tsx:57-62 | every 6-character id over a–z, 0–9 is produced by some valid draws |
| EnhancedForm.HandleInputChange | client/src/components/forms/EnhancedFormComponent.tsx:49-53 | the field named by the input takes the value; every other user field is unchanged |
| EnhancedForm.EditsCommute | client/src/components/forms/EnhancedFormComponent.tsx:49-53 | edits to different fields commute; of two edits to one field the later wins |
| EnhancedForm.JoinSeesEdit | client/src/components/forms/EnhancedFormComponent.tsx:49-81 | a join right after an edit emits iff the edited value together with the other field as it was passes validation |
| EnhancedForm.JoinRoom | client/src/components/forms/EnhancedFormComponent.tsx:72-81 | no-op while attempting to join; an invalid form only toasts; a valid one sets submitted and ATTEMPTING_JOIN and emits JOIN_REQUEST with the current user |
| EnhancedForm.JoinEmitsIffValid | client/src/components/forms/EnhancedFormComponent.tsx:72-81 | a join request is emitted iff no join is in flight and the form is valid |
| EnhancedForm.JoinOnce | client/src/components/forms/EnhancedFormComponent.tsx:72-81 | after an accepted join the button is disabled and a second submit does nothing |
| EnhancedForm.SubmitStaysDisabled | client/src/components/forms/EnhancedFormComponent.tsx:172 | once the submit button is disabled, neither edits nor further submits enable it again |
| EnhancedForm.PrefillRoomId | client/src/components/forms/EnhancedFormComponent.tsx:83-91 | the room id from navigation state is copied in only when the current room id is empty; nothing else changes; the effects are exactly one "Enter your username" toast when a non-empty room id is copied in and the username is empty, and none otherwise |
| EnhancedForm.PrefillSettles | client/src/components/forms/EnhancedFormComponent.tsx:83-91 | running the prefill effect again changes nothing |
| EnhancedForm.StatusEffect | client/src/components/forms/EnhancedFormComponent.tsx:93-114 | DISCONNECTED with a closed socket reconnects; JOINED without the flag sets it and navigates to the editor; JOINED with the flag clears it, goes DISCONNECTED and reconnects; every other case does nothing |
| EnhancedForm.NavigatesOnlyOnFirstJoin | client/src/components/forms/EnhancedFormComponent.tsx:99-106 | the effect navigates iff the status is JOINED and the redirect flag is clear |
| EnhancedForm.JoinedTwiceDisconnects | client/src/components/forms/EnhancedFormComponent.tsx:99-113 | a second JOINED run after the first sets DISCONNECTED and does not navigate |
| Login.NormalizeEmail | client/src/pages/Login.tsx:119 | the address sent is the typed one trimmed, then lower-cased: a run of the typed address, character by character lower-cased, with only white space before and after it; so it has no upper-case letter, no white space at either end, and is empty iff the typed address is blank |
| Login.NormalizeIdempotent | client/src/pages/Login.tsx:119 | normalizing a normalized address changes nothing |
| Login.UsernameOf | client/src/pages/Login.tsx:131 | the stored username has no "@", is a prefix of the address, ends just before its first "@", and is the whole address when it has none |
| Login.Submit | client/src/pages/Login.tsx:120-172 | the login request always comes first and carries the address; a reply other than "Login successful" gives the fixed invalid-credentials result; no response gives the generic error; an error response shows its message or the generic one |
| Login.Refused | client/src/pages/Login.tsx:143-170 | an error response still leaves the login request first, and its error line is the backend's message or the generic one |
| Login.HandleSubmit | client/src/pages/Login.tsx:113-172 | the first effect is the login request, carrying the normalized address, which has no upper-case letter |
| Login.SubmitIgnoresPadding | client/src/pages/Login.tsx:119 | white space around the typed address never changes the outcome |
| Login.StoresUsernameIffSuccess | client/src/pages/Login.tsx:126-142 | storage is written iff the reply is exactly "Login successful", and then token, username and navigation to /HomePage are all among the effects |
| Login.StoredUsernameHasNoAt | client/src/pages/Login.tsx:131 | any stored "username" value has no "@" and is a prefix of the normalized address |
| Login.RequestsCarryAddress | client/src/pages/Login.tsx:123-160 | every request a submission sends, login or resend, carries the address the handler computed |
| Login.RequestsUseNormalizedEmail | client/src/pages/Login.tsx:119-160 | every request of a submission, login or resend, carries the normalized address: the typed address trimmed, then lower-cased, character by character |
| Login.ResendOnlyWhenAsked | client/src/pages/Login.tsx:151-162 | the verification dialog is shown iff the error is a 403 that asks for verification; a resend is requested iff, in addition, the dialog was confirmed, and then right after the dialog |
| Login.OnlyLoginRequest | client/src/pages/Login.tsx:120-172 | without a confirmed resend of such a 403, the login request is the only request sent |
| EditorPage.ResolveUsername | client/src/pages/EditorPage.tsx:55-62 | a username in navigation state wins, even an empty one; otherwise a non-empty stored one; otherwise none |
| EditorPage.JoinEffect | client/src/pages/EditorPage.tsx:51-89 | nothing when a username is set; with no username found it navigates home carrying the room id; otherwise it consumes the stored name if used and joins only with a non-empty room id |
| EditorPage.JoinSendsResolvedUser | client/src/pages/EditorPage.tsx:73-81 | the user set and the user emitted are the same record: resolved name, room id, no socket id |
| EditorPage.StateUsernameWins | client/src/pages/EditorPage.tsx:55-58 | a username in state is used as is and storage is not touched |
| EditorPage.StoredUsernameConsumed | client/src/pages/EditorPage.tsx:59-62 | a stored username, once used, is removed from session storage |
| EditorPage.JoinsIff | client/src/pages/EditorPage.tsx:51-89 | the page joins iff no username is set, one is found and the room id is non-empty; it navigates iff no username is set and none is found |
| EditorPage.Render | client/src/pages/EditorPage.tsx:91-93 | the connection-status page shows iff the status is CONNECTION_FAILED |
| DrawingBoard.StartDrawing | client/src/components/drawing-board.tsx:172-184 | the pointer tool changes nothing; the pen starts a stroke of one point in the current colour and size |
| DrawingBoard.Draw | client/src/components/drawing-board.tsx:186-197 | exactly one point is appended while a pen stroke is in progress; otherwise nothing changes |
| DrawingBoard.StopDrawing | client/src/components/drawing-board.tsx:199-205 | with no stroke nothing changes; otherwise the stroke becomes one new line in the colour and size at this moment, and the stroke and flag clear |
| DrawingBoard.ClearCanvas | client/src/components/drawing-board.tsx:207-210 | no lines and no stroke; flag, tool, colour and size kept |
| DrawingBoard.SelectTool | client/src/components/drawing-board.tsx:241-249 | the pen and pointer buttons change the tool and nothing else |
| DrawingBoard.SelectColor | client/src/components/drawing-board.tsx:263 | a colour swatch changes the colour and nothing else |
| DrawingBoard.SelectSize | client/src/components/drawing-board.tsx:273-285 | a size button changes the pen size and nothing else |
| DrawingBoard.ColorChangeMidStroke | client/src/components/drawing-board.tsx:186-205 | a colour picked mid-stroke colours the later points, and the committed line takes the new colour while its first point keeps the old one |
| DrawingBoard.PointerMidStrokeStillCommits | client/src/components/drawing-board.tsx:186-205 | switching to the pointer mid-stroke stops new points, but the release still commits the stroke |
| DrawingBoard.StopKeepsEarlierLines | client/src/components/drawing-board.tsx:202-204 | committing a stroke keeps every earlier line in order and adds exactly one holding the stroke's points |
| DrawingBoard.StrokeBecomesLine | client/src/components/drawing-board.tsx:172-205 | a press, any moves and a release with the pen give one new line of all the points in order |
| DrawingBoard.ClearMidStrokeKeepsDrawing | client/src/components/drawing-board.tsx:199-210 | clearing mid-stroke keeps the flag set, and the release then commits nothing |
| DrawingBoard.PaintedLines | client/src/components/drawing-board.tsx:68-69 | exactly the lines with at least two points are painted, each as many times as it occurs |
| DrawingBoard.PaintedLinesAppend | client/src/components/drawing-board.tsx:68-69 | painting keeps the lines' order: painting a concatenation paints each part in turn |
| DrawingBoard.CommittedLinePainted | client/src/components/drawing-board.tsx:68-69 | after a release the painted lines are the earlier ones followed by the new line iff it has two points |
| DrawingBoard.Picture | client/src/components/drawing-board.tsx:55-100 | the canvas paints the painted lines, in order, then the stroke in progress in the current colour and size iff it has at least two points |
| DrawingBoard.ReleaseKeepsPicture | client/src/components/drawing-board.tsx:55-100 | releasing the pen leaves the picture unchanged |
| DrawingBoard.ColorRepaintsStroke | client/src/components/drawing-board.tsx:87-99 | a colour picked mid-stroke repaints the whole stroke in progress in that colour |
| DrawingBoard.OtherLine | client/src/components/drawing-board.tsx:124-163 | the collaborator's line starts at its cursor, has 2, 5 or 22 points for a segment, a closed square or a ring, and every point is in the collaborator's colour at size 2 |
| DrawingBoard.OtherDraws | client/src/components/drawing-board.tsx:165 | the collaborator's line is appended after every committed line; the stroke in progress and the settings stay |
| DrawingBoard.CollaboratorLineLands | client/src/components/drawing-board.tsx:55-70 | a collaborator's line is always painted, after the earlier lines; one that arrives mid-stroke is committed before the user's stroke |
| ChatInterface.SendMessage | client/src/components/chat-interface.tsx:104-117 | a draft of only white space changes nothing; otherwise one message from "You", marked as the user's and untrimmed, is appended and the draft cleared |
| ChatInterface.KeyDown | client/src/components/chat-interface.tsx:119-124 | Enter without Shift sends; every other key changes nothing |
| ChatInterface.StartTyping | client/src/components/chat-interface.tsx:62-64 | typing starts iff not already typing and the last message is the user's; messages and draft kept |
| ChatInterface.CompleteReply | client/src/components/chat-interface.tsx:81-92 | one non-user "Alice" reply is appended and typing stops |
| ChatInterface.TypingNeedsScheduledReply | client/src/components/chat-interface.tsx:61-101 | typing can only start while some message is the user's, which is when a reply is scheduled |
| ChatInterface.SendSchedulesReply | client/src/components/chat-interface.tsx:98-116 | a sent message keeps earlier messages, schedules a reply and lets typing start |
| ChatInterface.NoTypingAfterReply | client/src/components/chat-interface.tsx:61-92 | after a reply no typing starts until the user sends again |
| CodeEditor.Escape | client/src/components/code-editor.tsx:254 | the escaped line contains no "<" or ">"; a line with none of & < > is unchanged |
| CodeEditor.EscapeLineIsEscape | client/src/components/code-editor.tsx:254 | the three chained replacements equal one left-to-right substitution of & < > by their entities, every other character unchanged |
| CodeEditor.UnescapeEscape | client/src/components/code-editor.tsx:254 | decoding the three entities gives the original line back |
| CodeEditor.LineNumbers | client/src/components/code-editor.tsx:172-175 | the gutter is exactly 1..n where n is the number of "\n" plus one |
| CodeEditor.EmptyBufferHasOneLine | client/src/components/code-editor.tsx:172-175 | an empty buffer numbers one line |
| CodeEditor.ChangeLanguage | client/src/components/code-editor.tsx:167-169 | picking a language replaces the buffer with that language's example program |
| CodeEditor.EditCode | client/src/components/code-editor.tsx:201-203 | typing replaces the buffer's text and keeps the language |
| CodeEditor.ChangeLanguageDiscardsEdits | client/src/components/code-editor.tsx:167-169 | picking a language discards what was typed; typing after it keeps the new language |
| CodeEditor.HighlightCode | client/src/components/code-editor.tsx:206-246 | a language outside the four handled branches returns the text unchanged; otherwise the branch's rules are applied |
| CodeEditor.MenuLanguagesHighlighted | client/src/components/code-editor.tsx:210-243 | every language in the menu takes one of the four branches |
| CodeEditor.RenderLine | client/src/components/code-editor.tsx:253-260 | a rendered line is the highlighter's rewriting of the escaped line, or the escaped line itself for a language without rules, and "&nbsp;" when that is empty; never empty |
| CodeEditor.RenderCode | client/src/components/code-editor.tsx:249-260 | one rendered line per line number, the i-th being line i of the buffer rendered in the buffer's language |
| CodeEditor.PlainLineRoundTrip | client/src/components/code-editor.tsx:245-260 | without highlighting rules a non-empty line renders as its escape, which decodes back to the line |
| CodeEditor.Start | client/src/components/code-editor.tsx:122-123 | the start button starts collaboration and the interval with nothing logged; once started it does nothing |
| CodeEditor.Tick | client/src/components/code-editor.tsx:138-160 | a running tick logs the next scripted entry; the interval keeps running iff entries remain, and the hide timer is pending iff the log is the whole script; a stopped interval changes nothing |
| CodeEditor.HideFires | client/src/components/code-editor.tsx:152-154 | the hide timer hides the welcome screen and keeps the log |
| CodeEditor.EventsKeepValid | client/src/components/code-editor.tsx:137-160 | the log is always the first `next` scripted entries, growing by exactly the next entry per running tick; a stopped interval changes nothing |
| CodeEditor.HiddenOnlyWhenComplete | client/src/components/code-editor.tsx:147-155 | the welcome screen is hidden only when all nine entries are logged |
| CodeEditor.SuccessShownIffComplete | client/src/components/code-editor.tsx:134-147 | the last logged entry is the success line iff the log is complete |
| CodeEditor.NineTicksComplete | client/src/components/code-editor.tsx:137-155 | nine ticks after starting, the log is the whole script, the interval stopped and the hide timer pending |
| CodeEditor.StoredTick | client/src/components/code-editor.tsx:138-160 | the tick as written: a running tick stores `activities[i]` read before or after `i++`, as React applies the updater, `undefined` past the end; the interval stops and the hide timer starts after the ninth tick |
| CodeEditor.EagerTickIsTick | client/src/components/code-editor.tsx:140-144 | when React applies the updater at once, the tick as written is the modelled tick |
| CodeEditor.DeferredTicksShifted | client/src/components/code-editor.tsx:140-144 | when every updater is applied at the next render, entry k of the stored log is `activities[k + 1]` |
| CodeEditor.DeferredLogLosesFirstAndLast | client/src/components/code-editor.tsx:140-144 | with every updater applied at the next render, "Creating code room..." is never logged, the success banner shows after eight ticks, and the ninth entry is `undefined`, which removes it again |
| AnimatedInput.WithDefaults | client/src/components/forms/AnimatedCodeInput.tsx:18-19 | a missing placeholder is empty and a missing animation switch is on |
| AnimatedInput.Tick | client/src/components/forms/AnimatedCodeInput.tsx:32-52 | no tick while focused, with animation off or with a non-empty value; otherwise the next placeholder character is appended, or at the end one more restart is scheduled; focus is never changed and a character step schedules no restart; typed text stays the placeholder prefix |
| AnimatedInput.ResetFires | client/src/components/forms/AnimatedCodeInput.tsx:42-47 | one pending restart fires: the typed text and index empty and one fewer restart is pending; with none pending nothing changes |
| AnimatedInput.StrayRestartWipesProgress | client/src/components/forms/AnimatedCodeInput.tsx:32-48 | the end tick schedules a restart; after focus and blur a new interval's end tick schedules a second one, which fires after typing has started over and wipes what was typed since |
| AnimatedInput.Focus | client/src/components/forms/AnimatedCodeInput.tsx:65 | focusing sets the focus flag and keeps the typing progress and pending restarts |
| AnimatedInput.Blur | client/src/components/forms/AnimatedCodeInput.tsx:66 | blurring clears the focus flag and keeps the typing progress and pending restarts |
| AnimatedInput.FocusPausesTyping | client/src/components/forms/AnimatedCodeInput.tsx:33-66 | focus pauses the typing where it is, blur resumes it, and a restart scheduled before the focus still fires |
| AnimatedInput.OverlayOf | client/src/components/forms/AnimatedCodeInput.tsx:72-102 | the overlay shows iff unfocused with value exactly ""; it holds the typed characters, a prefix of the placeholder, when animating, the whole placeholder otherwise |
| AnimatedInput.NativePlaceholder | client/src/components/forms/AnimatedCodeInput.tsx:67 | the input's own placeholder is shown only while focused |
| AnimatedInput.PlaceholdersExclusive | client/src/components/forms/AnimatedCodeInput.tsx:67-72 | overlay and native placeholder are never both visible; a non-empty value hides the overlay |
| AnimatedInput.TypesWholePlaceholder | client/src/components/forms/AnimatedCodeInput.tsx:39-41 | n undisturbed ticks type the next n placeholder characters |
| AnimatedInput.MountedTypesPlaceholder | client/src/components/forms/AnimatedCodeInput.tsx:18-52 | from mount, one tick per character types the whole placeholder |
| UsersView.UniqueId | client/src/components/sidebar/sidebar-views/UsersView.tsx:25-26 | the extracted id never contains "/" |
| UsersView.UniqueIdIsLastSegment | client/src/components/sidebar/sidebar-views/UsersView.tsx:25-26 | the id is a suffix of the path, preceded by "/" when shorter, and shorter iff the path has a "/"; a path without "/" is its own id |
| UsersView.MissingIdIffTrailingSlash | client/src/components/sidebar/sidebar-views/UsersView.tsx:26-31 | the id is empty iff the path is empty or ends with "/" |
| UsersView.EditorPathGivesRoomId | client/src/components/sidebar/sidebar-views/UsersView.tsx:25-26 | on "/editor/" + a room id without "/", the id read back is the room id |
| UsersView.CopyUrl | client/src/components/sidebar/sidebar-views/UsersView.tsx:22-39 | an empty id only toasts "Unique ID not found in the URL"; otherwise the id goes to the clipboard and the success toast shows iff the write succeeded |
| UsersView.ShareUrl | client/src/components/sidebar/sidebar-views/UsersView.tsx:41-64 | same empty-id check; the share sheet when available, else a clipboard copy; a failure ends with "Unable to share Unique ID" |
| UsersView.ClipboardGetsOnlyTheId | client/src/components/sidebar/sidebar-views/UsersView.tsx:33-57 | only the non-empty id is ever written to the clipboard |
| UsersView.LeaveRoom | client/src/components/sidebar/sidebar-views/UsersView.tsx:66-71 | leaving disconnects and sets OFFLINE before ending with navigation to "/" |
| UsersView.OnlyLeaveEndsSession | client/src/components/sidebar/sidebar-views/UsersView.tsx:22-71 | copying and sharing never disconnect, change the status or navigate; leaving does |
| ChatList.Classify | client/src/components/chats/ChatList.tsx:45-56 | a "System" message is a notice even if that is the current user; otherwise own iff the username is the current user's; the classes are exclusive and exhaustive |
| ChatList.SystemWinsOverSelf | client/src/components/chats/ChatList.tsx:45-53 | a user named "System" sees their own messages as notices |
| ChatList.KeyOf | client/src/components/chats/ChatList.tsx:50 | the key is the id when present, else the position |
| ChatList.Render | client/src/components/chats/ChatList.tsx:43-83 | the placeholder "No messages yet" iff there are no messages; otherwise one bubble per message in order, with its key, class and texts |
| ChatList.KeysDistinct | client/src/components/chats/ChatList.tsx:50 | two messages get different keys when their ids differ or are absent |
| ChatList.RenderKeepsMessages | client/src/components/chats/ChatList.tsx:43-83 | changing the current user never changes a bubble's message or key, nor the class of a "System" message |
| RunView.ListedRuntimes | client/src/components/sidebar/sidebar-views/RunView.tsx:59-61 | the menu lists the supported runtimes ascending by language name, as a permutation of them |
| RunView.RenderMenu | client/src/components/sidebar/sidebar-views/RunView.tsx:59-73 | rendering leaves the context's list sorted by name, as a permutation of what it held, with one option label per runtime in that order |
| RunView.MenuSettles | client/src/components/sidebar/sidebar-views/RunView.tsx:59-61 | rendering again from the reordered context changes neither the context nor the options |
| RunView.OptionLabel | client/src/components/sidebar/sidebar-views/RunView.tsx:67-70 | the label starts with the name; it is the name alone iff there is no version, else the name followed by " (version)" |
| RunView.LabelsTellVersionsApart | client/src/components/sidebar/sidebar-views/RunView.tsx:67-70 | two versions of one language get different labels |
| RunView.InputChange | client/src/components/sidebar/sidebar-views/RunView.tsx:28-32 | an edit sets the local text and the run input to the same value, nothing else |
| RunView.InputsAgree | client/src/components/sidebar/sidebar-views/RunView.tsx:28-32 | after any edits the two copies agree and hold the last value typed |
| RunView.RunButton | client/src/components/sidebar/sidebar-views/RunView.tsx:141-149 | the Run button is disabled iff a run is in progress, and then reads "Running..."; otherwise "Run" |
| RunView.TypingKeepsRunButton | client/src/components/sidebar/sidebar-views/RunView.tsx:28-32 | typing input never enables or disables the Run button |
| RunView.OutputText | client/src/components/sidebar/sidebar-views/RunView.tsx:169 | empty output shows "Output will appear here..."; any other output shows as is |
| Select.Capitalize | client/src/components/common/Select.tsx:21-22 | same length, first character upper-cased, rest identical; empty stays empty |
| Select.CapitalizeOnlyChangesCase | client/src/components/common/Select.tsx:21-22 | capitalising changes case only and is idempotent |
| Select.Entries | client/src/components/common/Select.tsx:19-27 | the option values are the input list sorted (a sorted permutation), each shown under its capitalised value |
| Select.EntriesOrderFree | client/src/components/common/Select.tsx:19 | the menu does not depend on the order the options arrive in |
| Select.Values | client/src/components/common/Select.tsx:20 | each option submits its original value, in menu order |
| Select.Render | client/src/components/common/Select.tsx:19 | after a render the caller's array holds the options sorted, as a permutation of what it held, in the menu's order |
| Select.RenderSettles | client/src/components/common/Select.tsx:19 | rendering again from the reordered array changes neither the array nor the menu |

## Left out

- Rendering, styling and animation: JSX layout, Tailwind classes, framer-motion, canvas drawing calls, scrolling, the simulated cursors' positions, particle and gradient backgrounds. Only the decisions that choose what is shown are modelled.
- Timers are events the caller fires in any order. Their delays are not modelled, and neither are interleavings the browser could not produce.
- The router, the socket, storage, the clipboard, the share sheet, toasts and alerts are effect values. Backend replies, clipboard outcomes, dialog answers and share availability are inputs. `Math.random` draws are input numbers.
- Only ASCII letters are case-mapped, and `trim` knows a fixed set of white-space characters. JavaScript maps all of Unicode.
- `Sorting.SortBy`: strings are compared by character, i.e. by code point. JavaScript compares UTF-16 code units, which can differ outside the Basic Multilingual Plane.
- RunView.ListedRuntimes: the source's comparator returns -1 for equal names, so the order of equal names is engine-specific. The model fixes one stable order and proves only sortedness and permutation. `RunView.RenderMenu` returns the reordered list as the run context's new contents; other readers of that context are not part of this model.
- Select.Entries: `options.sort()` reorders the caller's array in place. `Select.Render` returns that array's new contents; what the caller does with it is not part of this model.
- Validation.Validate: lengths are UTF-16 code units, as in JavaScript (`Text.Utf16Length`). Trimming and case mapping still work per character, which agrees with JavaScript for every white-space character `trim` removes.
- AnimatedInput.Tick: `placeholder.split('')` splits into UTF-16 code units, so a character outside the Basic Multilingual Plane takes two ticks, and half of it shows after the first. The model types one character per tick.
- Hotkeys: a key name is any string. Browsers never report a `KeyboardEvent.key` containing `+` other than `"+"` itself, so the held sets in `Hotkeys.CanonicalNotInjective` and `Hotkeys.RepeatedKeyMatchesPlusKey` are model inputs, not browser states.
- CodeEditor.Tick: it assumes the queued updater `prev => [...prev, activities[i]]` reads `i` before the `i++` that follows it. That holds only when React applies the updater at once. React 18 batches updates from timer callbacks, and a deferred updater reads the incremented counter. `CodeEditor.StoredTick` models both cases (see Findings).
- CodeEditor.EventsKeepValid: the log is a prefix of the script only for the intended tick; as written, with deferred updaters, it is the script shifted by one (`CodeEditor.DeferredTicksShifted`).
- CodeEditor.HiddenOnlyWhenComplete: as written, with deferred updaters, the hidden welcome screen's log lacks the first entry and ends with `undefined`.
- CodeEditor.SuccessShownIffComplete: as written, with deferred updaters, the success banner shows after eight ticks and is gone after the ninth (`CodeEditor.DeferredLogLosesFirstAndLast`).
- CodeEditor.NineTicksComplete: it states the intended outcome; as written, with deferred updaters, nine ticks give the shifted log.
- The regular-expression highlighters are an opaque function of the rule set. Only which branch is taken, and the fallback, are modelled.
- The demo editor's example programs are a table parameter, not their texts.
- `Hotkeys.Evaluate` re-runs after every handled key event. Re-runs caused only by the caller passing a new hotkey list are not modelled.
- DrawingBoard: point coordinates are reals taken as given, and the canvas-missing guard is left out. Whether the collaborator draws on a given interval tick, its shape and the shape's size are random draws, so the caller fires `OtherDraws` with a shape of its choice.
- DrawingBoard.OtherLine: the ring's 21 points come from `Math.cos` and `Math.sin`, which are not modelled; they are an input of that length.
- Login.Submit: the dialog's answer is an input; the dialog itself is the `Confirm` effect.
- Login: the password field, the loading flags and the delay are left out. Only the address, the replies and the resulting messages and effects are modelled.
- Effects.Status: the `USER_STATUS` enumeration file is not part of this model. The statuses used are named directly.
- ChatList.KeyOf: React turns keys into strings, so an id equal to another message's position numeral would collide. The datatype keeps id keys and position keys apart.
- The Register page, the Home page's terminal animation, `floating-elements.tsx`, `ChatsView.tsx`, `use-toast.tsx` and the homepage's particle values are presentation only and are not modelled.

## Findings

| source | as written | input that shows it | evidently intended | confidence | as-written member | corrected member |
|---|---|---|---|---|---|---|
| client/src/components/code-editor.tsx:140-144 | each tick queues `prev => [...prev, activities[i]]` and then runs `i++`; a queued updater reads the shared counter when React applies it | the start button, then nine interval ticks whose updaters React applies at the next render: the log is entries 2 to 9 and `undefined`, "Creating code room..." never shows, and the success banner disappears after the ninth tick (`CodeEditor.DeferredLogLosesFirstAndLast`) | each tick logs the entry at the counter's value before the increment, so the log ends as the whole script (`CodeEditor.NineTicksComplete`) | medium; not executed; depends on whether React computes the update eagerly, which it does only while the component has no pending work | CodeEditor.StoredTick | CodeEditor.Tick |
