# Slash-command menu of the text area component

A Dafny model of the `CustomTextArea` component in
`app/components/TextEditor.tsx`. The component is a multi-line text area
with a slash-command menu. Typing `/` opens a menu of three fixed entries
at the caret. The arrow keys and the shortcut keys `w`, `e`, `r` move the
highlight. Enter or a click appends the highlighted entry's `value` to the
end of the text. Escape closes the menu. A growth check is meant to move
the menu when the text gets longer or gains lines. In the source, though,
that effect only re-runs when `prevTextAreaValue` changes. At mount the
text area is empty, so the check stores the same empty value and never
runs again: as written, the anchor is never recomputed on growth. The
model states what one run of the check does (`OnGrowthCheck`). It lets
that run happen at any time.

Files:

- `options.dfy` (module `MenuOptions`): the entry table and the `findIndex` lookup by value.
- `caret.dfy` (module `Caret`): the measured prefix, where spaces become U+00A0, and the caret coordinates. The browser's text measurement is a function value held by a `Surface`. A `Surface` also holds the caret offset and the scroll and client offsets. `View` says whether the text area exists (`textAreaRef.current` null or not).
- `growth.dfy` (module `Growth`): `split("\n")`, its inverse `join`, and the growth test.
- `menu.dfy` (module `Menu`): the component's state as a `Snapshot` value, one transition function per handler, and the lemmas about them. Also event sequences (`Run`) and the invariants that hold over them.
- `editor.dfy` (module `Editor`): the class `CustomTextArea`. Its fields are the component's state. Each handler is a method, and each method's postcondition says the new state is the matching `Menu` transition of the old one.

Each event is one atomic transition, and every handler reads the state as it was when the event arrived. That is also how the source's handlers behave: they close over the state of the last render.

The model keeps these details of the code as written:

- Opening the menu keeps the previous highlight; it does not reset it to 0.
- The growth check does not look at whether the menu is open.
- Enter with index -1 changes nothing and leaves the menu open. It is not treated as a cancel.
- The keypress handler cancels `/` even when the text area is missing.

## Model

| member | source | states |
|---|---|---|
| `MenuOptions.FindIndex` | app/components/TextEditor.tsx:130 | The result is the first index whose entry has the given value, or -1 exactly when no entry has it |
| `MenuOptions.FindIndexOfListed` | app/components/TextEditor.tsx:9-13 | The three values are distinct, so looking up entry i's value gives i |
| `Caret.PrefixEnd` | app/components/TextEditor.tsx:114 | The end `substring(0, end)` cuts at is an offset of the value, and no offset of the value is nearer to `end` |
| `Caret.ReplaceSpaces` | app/components/TextEditor.tsx:115 | Same length; each space becomes U+00A0, every other character is kept, and no space remains |
| `Caret.RestoreSpaces` | app/components/TextEditor.tsx:115 | Same length, and no U+00A0 remains: the inverse direction of the replacement |
| `Caret.CaretPrefix` | app/components/TextEditor.tsx:114-115 | The measured text has the clamped caret offset as its length and contains no space. Non-space characters of the value are kept, and spaces become U+00A0 |
| `Caret.ReplaceSpacesAppend` | app/components/TextEditor.tsx:115 | Replacing spaces distributes over concatenation |
| `Caret.RestoreReplace` | app/components/TextEditor.tsx:115 | Restoring spaces undoes the replacement on text without its own U+00A0 |
| `Caret.CaretPrefixRoundTrip` | app/components/TextEditor.tsx:114-115 | Restoring spaces in the measured text gives back `value[..position]` |
| `Caret.CaretCoordinatesFollowScroll` | app/components/TextEditor.tsx:122-126 | `CaretCoordinates`: scrolling the text area by (dx, dy) moves the anchor by exactly (dx, dy) |
| `Caret.CaretCoordinatesIgnoreSuffix` | app/components/TextEditor.tsx:102-127 | `CaretCoordinates`: text behind the caret changes neither the measured prefix nor the computed coordinates |
| `Growth.NewlineCount` | app/components/TextEditor.tsx:93 | The line-feed count is at most the length, and it is 0 exactly when there is no line feed |
| `Growth.Join` | app/components/TextEditor.tsx:93 | Joining one piece gives that piece, and the first piece always begins the joined text |
| `Growth.Split` | app/components/TextEditor.tsx:93 | `split("\n")` gives at least one piece, and no piece contains a line feed |
| `Growth.SplitLength` | app/components/TextEditor.tsx:93 | The number of pieces is the number of line feeds plus one |
| `Growth.JoinSplit` | app/components/TextEditor.tsx:93 | Joining the pieces with line feeds gives back the value |
| `Growth.SplitJoin` | app/components/TextEditor.tsx:93 | Splitting a join of line-feed-free pieces gives back the pieces |
| `Growth.Grew` | app/components/TextEditor.tsx:91-93 | Growth holds iff the value got longer or has more line feeds than before |
| `Growth.NoGrowthWithoutChange` | app/components/TextEditor.tsx:91-98 | An unchanged value never counts as growth |
| `Growth.GrewByAppending` | app/components/TextEditor.tsx:91-93 | Appending text counts as growth iff the text is not empty |
| `Growth.GrewByLineFeedAlone` | app/components/TextEditor.tsx:93 | The line clause is needed: "abc" to "a\nb" keeps the length and still grew |
| `Menu.NextIndex` | app/components/TextEditor.tsx:43-46 | ArrowDown stays in [0, n) from -1 or any entry, and from an entry it is (i + 1) mod n |
| `Menu.PrevIndex` | app/components/TextEditor.tsx:38-41 | ArrowUp stays in [0, n) from -1 or any entry, and from an entry it is (i - 1) mod n |
| `Menu.ShortcutIndex` | app/components/TextEditor.tsx:48-59 | Exactly `w`, `e` and `r` pick an index, and the index they pick is inside the three-entry table |
| `Menu.DocumentKeyDownCancelsShortcutsOnly` | app/components/TextEditor.tsx:36-59 | `KeyDownPrevented`: on an open menu, every key that reaches the text area is cancelled by its guard (lines 157-161); a key that reaches only the document handler is cancelled exactly when it is `w`, `e` or `r` |
| `Menu.OnKeyPress` | app/components/TextEditor.tsx:22-33 | The keypress transition keeps the highlight invariant |
| `Menu.Commit` | app/components/TextEditor.tsx:134-145 | The commit transition keeps the highlight invariant |
| `Menu.OnKeyDown` | app/components/TextEditor.tsx:35-70 | The keydown transition keeps the highlight invariant |
| `Menu.OnClick` | app/components/TextEditor.tsx:129-132 | A click as intended (highlight first, then commit) keeps the highlight invariant |
| `Menu.ClickAsWritten` | app/components/TextEditor.tsx:129-132 | A click as written (commit with the old highlight, then highlight) keeps the highlight invariant |
| `Menu.OnGrowthCheck` | app/components/TextEditor.tsx:87-100 | The growth check keeps the highlight invariant |
| `Menu.OnEdit` | app/components/TextEditor.tsx:149-163 | The browser's editing sets the value and changes nothing else |
| `Menu.Step` | app/components/TextEditor.tsx:21-100 | Every event keeps the highlight in [-1, 3). A click on a closed menu changes nothing, since entries are rendered only while the menu shows (line 164). This holds with clicks handled as written (`AsWritten`, by `ClickAsWritten`) and with clicks handled as intended (`Intended`, by `OnClick`) |
| `Menu.Run` | app/components/TextEditor.tsx:21-100 | Every sequence of events keeps the highlight in [-1, 3), under either click order |
| `Menu.SlashOpens` | app/components/TextEditor.tsx:23-31 | `KeyPressPrevented`, `CaretCoordinates`: `/` on a closed menu with a text area opens it and anchors it at the caret. The highlight and the text are kept, and the key is cancelled |
| `Menu.SlashUnmounted` | app/components/TextEditor.tsx:23-27 | `KeyPressPrevented`: `/` on a closed menu without a text area is cancelled, and the state is left unchanged |
| `Menu.KeyPressNoOp` | app/components/TextEditor.tsx:23 | `KeyPressPrevented`: `/` on an open menu, and any other keypress, changes nothing and cancels nothing |
| `Menu.NavigationWraps` | app/components/TextEditor.tsx:38-47 | ArrowUp from 0 gives the last index; ArrowDown from the last index gives 0 |
| `Menu.ArrowsInverse` | app/components/TextEditor.tsx:38-47 | From an entry, ArrowUp undoes ArrowDown and ArrowDown undoes ArrowUp |
| `Menu.ArrowKeepsHighlightInRange` | app/components/TextEditor.tsx:38-47 | An arrow changes only the highlight, and on an open menu it leaves the highlight inside the table |
| `Menu.ShortcutsSelect` | app/components/TextEditor.tsx:48-59 | `KeyDownPrevented`: on an open menu, `w`, `e` and `r` set the highlight to 0, 1 and 2 and change nothing else, and the key is cancelled |
| `Menu.EnterCommitsHighlighted` | app/components/TextEditor.tsx:60-62 | Enter on an entry gives text = old text + that entry's `value` (not its label) and closes the menu. Nothing else changes |
| `Menu.EnterUnmountedCloses` | app/components/TextEditor.tsx:134-145 | Without a text area, Enter closes the menu and leaves the text |
| `Menu.EnterOutOfRangeNoOp` | app/components/TextEditor.tsx:134-135 | Enter with index -1 changes nothing; the menu stays open |
| `Menu.EscapeCancels` | app/components/TextEditor.tsx:63-64 | Escape closes the menu and leaves text, highlight and anchor unchanged |
| `Menu.OtherKeysSwallowed` | app/components/TextEditor.tsx:36-67 | `KeyDownPrevented`: on an open menu, any other key changes nothing, and the text area's guard cancels its insertion |
| `Menu.KeyDownWhileClosed` | app/components/TextEditor.tsx:36 | `KeyDownPrevented`: on a closed menu, keydown changes nothing and cancels nothing |
| `Menu.CommitAppendsAtMostOne` | app/components/TextEditor.tsx:134-145 | A commit leaves the text alone or appends exactly one entry's value |
| `Menu.ClickCommitsClicked` | app/components/TextEditor.tsx:129-132 | With the intended order, a click on entry i highlights i, appends its value and closes the menu |
| `Menu.ClickAsWrittenCommitsStale` | app/components/TextEditor.tsx:129-132 | As written, clicking entry 1 while entry 0 is highlighted appends "test1" |
| `Menu.GrowthCheckRecords` | app/components/TextEditor.tsx:91-98 | The anchor is recomputed iff the text grew, and the text is always recorded as last seen. Nothing else changes |
| `Menu.GrowthCheckIdempotent` | app/components/TextEditor.tsx:87-100 | A second check right after the first changes nothing |
| `Menu.StepKeepsHighlightInRange` | app/components/TextEditor.tsx:38-59 | From an entry, every event except a click on a foreign entry leaves the highlight on an entry, under either click order |
| `Menu.RunKeepsHighlightInRange` | app/components/TextEditor.tsx:17 | From any entry (the initial highlight among them), every sequence of keys, menu clicks, checks and edits keeps the highlight in [0, 3). This is proved for the source's click order as written and for the intended one |
| `Menu.StepAppendsAtMostOne` | app/components/TextEditor.tsx:134-145 | Apart from edits, an event leaves the text alone or appends one entry's value, under either click order |
| `Menu.RunOnlyAppends` | app/components/TextEditor.tsx:139-140 | Without edits, the text before a run is a prefix of the text after it, under either click order |
| `Menu.ClickOnClosedMenuIgnored` | app/components/TextEditor.tsx:164-180 | On a closed menu no entry is rendered, so a click event changes nothing, under either click order |
| `Menu.KeysOnClosedMenuKeepState` | app/components/TextEditor.tsx:23-36 | On a closed menu, no keypress other than `/` changes the state, and no keydown at all does (`/` included) |
| `Menu.OpenNavigateCommit` | app/components/TextEditor.tsx:22-64 | "/", ArrowDown, Enter from the initial state gives text "test2", a closed menu and highlight 1 |
| `Menu.ArrowUpWrapsAround` | app/components/TextEditor.tsx:38-41 | From index 2, ArrowUp three times visits 1, 0 and 2 |
| `Menu.ReflowMovesAnchor` | app/components/TextEditor.tsx:91-97 | `CaretCoordinates`: "ab" to "ab\nc" moves the anchor to the new caret coordinates, and the highlight and the open menu are kept |
| `Editor.CustomTextArea.constructor` | app/components/TextEditor.tsx:15-18 | Initial state: empty text, hidden menu, highlight 0, anchor (0, 0), empty snapshot |
| `Editor.CustomTextArea.KeyPress` | app/components/TextEditor.tsx:22-33 | The new state is `OnKeyPress` of the old one, and the result says whether `/` was cancelled |
| `Editor.CustomTextArea.KeyDown` | app/components/TextEditor.tsx:35-70 | The new state is `OnKeyDown` of the old one. The result is the cancellation by the shortcut keys and by the text area's guard (lines 157-161) |
| `Editor.CustomTextArea.OptionSelection` | app/components/TextEditor.tsx:134-145 | The new state is `Commit` of the old one |
| `Editor.CustomTextArea.OptionClick` | app/components/TextEditor.tsx:129-132 | The new state is the intended click transition `OnClick` of the old one |
| `Editor.CustomTextArea.CheckGrowth` | app/components/TextEditor.tsx:87-100 | The new state is `OnGrowthCheck` of the old one |
| `Editor.CustomTextArea.Edit` | app/components/TextEditor.tsx:149-163 | The new state is the old one with the value replaced |
| `Editor.Session` | app/components/TextEditor.tsx:22-64 | A client using only the class's contracts sees "/", ArrowDown, Enter, "/" produce text "test2" and a reopened menu on highlight 1 |

## Left out

- Text measurement in the browser (`getComputedStyle`, the off-screen span, `getBoundingClientRect`) is not modelled. It is the `measure` function of a `Surface`, and the coordinates are that measurement plus the client and scroll offsets.
- Pixel values are integers here, where the browser uses floating point.
- React's machinery is not modelled: batching of state updates, effects re-registering on their dependencies, and `document.addEventListener`/`removeEventListener`. Each event is one synchronous transition.
- The scheduling of the growth effect is not modelled. The effect depends only on `prevTextAreaValue`, so in the source it runs once at mount, with an empty text area, and never again. As written, the menu is therefore never moved when the text grows. The model makes one run of the check an event (`Recheck`, `CheckGrowth`) that may come at any time.
- A keydown whose default action is cancelled suppresses the keypress that would follow it. The model treats keydown and keypress as independent events. On an open menu both paths leave the state unchanged anyway.
- The focus calls (lines 83 and 141) and the JSX rendering and styling are not modelled; they are display only. The `onClick` wiring of the entries is modelled by `OptionClick`.
- Ordinary typing, which is the browser's own editing, is not modelled character by character. `Edit` replaces the value with any new value.
- After the value is set, the browser moves the caret to the end. This is not modelled: each event's `Surface` carries its own caret offset.
- Offsets and lengths count Unicode scalar values, where JavaScript strings count UTF-16 code units. This affects the caret prefix (`Caret.CaretPrefix`) and the length test in `Growth.Grew`. For example, "a" to "😀" grows in JavaScript (length 1 to 2) but not in the model (1 to 1). Text with characters outside the Basic Multilingual Plane is only handled up to that difference.
- An empty option table cannot arise: the table is fixed at three entries. For the same reason, the shortcut keys always name entries 0 to 2.
- Editor.CustomTextArea.OptionClick: follows the intended click order, not the stale read at lines 130-131. The behaviour as written is `Menu.ClickAsWritten`, and it is what `Menu.Step` and `Menu.Run` use under `AsWritten`.
- `app/routes/_index.tsx` only mounts the component and sets page metadata; it is not part of this model.

## Findings

| source | as written | input that shows it | evidently intended | confidence | as-written member | corrected member |
|---|---|---|---|---|---|---|
| app/components/TextEditor.tsx:129-132 | The click handler schedules the highlight update and then commits. The commit reads the highlight from before the click | Menu open with entry 0 ("test1") highlighted, then a click on entry 1: "test1" is appended instead of "test2" | A click highlights the clicked entry and appends that entry's value | not executed | `Menu.ClickAsWritten`, shown by `Menu.ClickAsWrittenCommitsStale` | `Menu.OnClick`, proved by `Menu.ClickCommitsClicked` and used by `Editor.CustomTextArea.OptionClick`. The run lemmas (`Menu.RunKeepsHighlightInRange`, `Menu.RunOnlyAppends`) are proved for both click orders |
