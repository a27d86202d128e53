# dial: a verified model of the gap buffer and the mode machine

dial is a terminal snippet manager written in Rust. The user browses a list
of code snippets, filters it by title, and edits the selected snippet's code
in place. This project models the three sequential parts of its core in
Dafny and proves properties of the model.

- **The gap buffer** (`src/editor.rs`). A character vector with a
  NUL-filled gap between `gap_start` and `gap_end`. It supports
  construction with spare room, gap relocation, growth, insertion before the
  cursor and backspace. Module `Editor` states each operation as a function
  on a `Gap` value. The class `Editor.GapBuffer` then performs the same
  operations in place on an `array<char>`, with the source's loops, and is
  proved against those functions. `GapBuffer.Grow` and `GapBuffer.MoveGap`
  perform the corrected `grow` and `move_gap` (see Findings); the written
  versions are modelled as values beside them. `Abs` maps a buffer to a plain document
  (`Doc`: a text and a cursor). Every operation in its corrected form is
  proved to act on that document the way a text editor should; the written
  `grow` and `move_gap` are proved not to (see Findings). Module `EditorTests` restates the
  unit tests of `src/editor.rs` as lemmas.
- **The components** (`src/view.rs`). Module `View` holds:
  - the snippet list's wrap-around selection;
  - the editor's key dispatch (`EditedBy`), proved over every sequence of
    keys against the document-level reference `DocKey`;
  - the projection of the cursor onto the terminal;
  - the proof that the text the editor shows (its storage without NULs) is the document's text;
  - the class `EditorComponent`.
- **The application** (`src/app.rs`). Module `State` holds the snippet
  record, the case-insensitive title filter and the filtered lookups, and the
  class `AppState` with its focus methods. Module `App` holds `switch_mode`,
  the routing of one event in `run`, and the class `App` with the event
  loop. The loop also has a pure form: `RunControl`, `Consumed` and
  `RunEffects`.

Calls into code the model does not contain become entries of an effect log
(`App.Effect`). These are `sync_buffer_to_state`, `save_snippets`, and the
search and popup components' `handle_event`. Terminal events are inputs.

## Model

| member | source | states |
|---|---|---|
| Editor.FromText | src/editor.rs:10-22 | the storage is the text followed by `capacity` NULs, with `gap_start` the text length and `gap_end` one before the end; with spare room it stands for the text with the cursor at its end; it is well formed exactly when the capacity is at least 2 |
| Editor.GapBuffer.FromStr | src/editor.rs:10-22 | fills a fresh array as `FromText` says |
| Editor.MovedLeft | src/editor.rs:23-30 | the gap start ends at `min(gap_start, index)`; gap width and storage length are kept; a NUL-filled gap stays NUL-filled and the content is unchanged |
| Editor.GapBuffer.MoveGapLeft | src/editor.rs:23-30 | the loop leaves the buffer as `MovedLeft` says |
| Editor.GapBuffer.ShiftLeft | src/editor.rs:25-28 | one iteration of the loop of `move_gap_left` is `StepLeft`: both bounds step left and the character before the gap crosses to its end, leaving a NUL |
| Editor.MovedRight | src/editor.rs:32-39 | under `index + (gap_end - gap_start) < len`, the gap start ends at `max(gap_start, index)`; gap width, length, NUL gap and content are kept |
| Editor.GapBuffer.MoveGapRight | src/editor.rs:32-39 | the loop stays in bounds and leaves the buffer as `MovedRight` says |
| Editor.GapBuffer.ShiftRight | src/editor.rs:34-37 | one iteration of the loop of `move_gap_right` is `StepRight`: both bounds step right and the character after the gap crosses to its start, leaving a NUL |
| Editor.GrownAsWritten | src/editor.rs:41-53 | the written `grow`: the storage is the text before the gap, `2*capacity` NULs, then the text after the gap; `gap_start` and `capacity` are unchanged; `gap_end` is one past the last NUL; the storage lengthens exactly when `2*capacity` exceeds the old gap width |
| Editor.Grown | src/editor.rs:41-53 | the corrected `grow`: the gap is exactly the `2*capacity` new NULs, the capacity is doubled, the content is unchanged, and well-formedness is kept |
| Editor.GapBuffer.Grow | src/editor.rs:41-53 | builds a fresh array as `Grown` says |
| Editor.GapBuffer.Reallocate | src/editor.rs:43-50 | the fresh vector `grow` fills holds the text before the gap, `room` NULs, then the text after the gap |
| Editor.GapBuffer.CopyInto | src/editor.rs:45-50 | `extend_from_slice`: copies `count` characters and leaves the rest of the target alone |
| Editor.GapBuffer.FillNuls | src/editor.rs:46-48 | the pushing loop: `count` cells become NUL and the others are left alone |
| Editor.Inserted | src/editor.rs:55-62 | the buffer grows exactly when the gap width is 1; the document gains `c` before the cursor and the cursor moves past it; well-formedness is kept |
| Editor.GapBuffer.InsertChar | src/editor.rs:55-62 | changes the buffer as `Inserted` says and keeps it valid |
| Editor.Deleted | src/editor.rs:64-70 | no-op at position 0; otherwise the gap start drops by one, that slot is NUL, every other slot is unchanged, and the document loses the character before the cursor |
| Editor.GapBuffer.DeleteChar | src/editor.rs:64-70 | changes the buffer as `Deleted` says |
| Editor.RightAtEndPassesWrittenGuard | src/editor.rs:72-77 | with the cursor at the end of the text, the written guard admits `gap_start + 1`, although `move_gap_right` needs an index below that bound |
| Editor.AsWrittenGuardAdmits | src/editor.rs:74 | the written guard admits every index the corrected guard admits, and exactly one more: the index with `index + gap_size == len` |
| Editor.Moved | src/editor.rs:72-88 | `move_gap` with the corrected guard: no-op when the index is rejected or equal to the gap start; otherwise the gap start becomes the index; the document's cursor moves there exactly when the index is at most the text length |
| Editor.GapBuffer.MoveGap | src/editor.rs:72-88 | changes the buffer as `Moved` says |
| Editor.Layout | src/editor.rs:2-7 | a NUL-gapped buffer is its content's prefix, the NULs of the gap, and its content's suffix |
| Editor.DisplayedTextIsContent | src/view.rs:130 | dropping the NULs from the storage gives the content without its NULs, so a content free of NULs is shown exactly |
| Editor.WithoutNuls | src/view.rs:130 | the displayed text: no NUL, no longer than the storage, and every other character as often as in the storage |
| Editor.GrowKeepsDisplayedText | src/editor.rs:41-53 | both versions of `grow` keep the NUL-filtered text |
| Editor.LeftAfterWrittenGrowOverwrites | src/editor.rs:49-51 | after the written `grow`, one left step writes over the first character after the gap, or writes past the storage when the gap was at the end |
| Editor.HelloAfterHShowsHello | src/editor.rs:150-159 | the buffer of the `grow` unit test stands for and shows "Hello" |
| Editor.WrittenGrowOfHello | src/editor.rs:41-53 | on the `grow` unit test's buffer the written `grow` gives six NULs with `gap_end` on the 'e' |
| Editor.WrittenGrowLosesACharacter | src/editor.rs:41-53 | the `grow` unit test's buffer, grown as written and moved left once, shows "Hllo" |
| Editor.CorrectedGrowKeepsTheText | src/editor.rs:41-53 | with the corrected `grow`, any later `move_gap` still shows "Hello" |
| Editor.GrowthDoubles | src/editor.rs:42 | with the corrected `grow`, each growth adds twice the room of the previous one |
| Editor.WrittenGrowthIsConstant | src/editor.rs:42 | the written `grow` never changes `capacity`, so every growth adds `2*capacity` slots of the initial capacity |
| Editor.CapacityOneExhaustsTheGap | src/editor.rs:55-62 | `from_str` with capacity 1 lets the first insertion fill the gap without growing, leaving `gap_start > gap_end` |
| EditorTests.TestFromStr | src/editor.rs:96-104 | "Hello" with capacity 4 gives gap 5..8 over four NULs |
| EditorTests.TestMoveGapLeft | src/editor.rs:107-116 | the buffer after `move_gap_left(1)` is the one the test expects |
| EditorTests.TestMoveGapRight | src/editor.rs:119-127 | moving left to 1 and right to 5 restores the original storage |
| EditorTests.TestMoveGap | src/editor.rs:130-148 | `move_gap(2)`, then a rejected `move_gap(7)`, then `move_gap(3)` give the expected storages |
| EditorTests.TestGrow | src/editor.rs:151-159 | both versions of `grow` give the expected storage of the test |
| EditorTests.TestInsertWithMove | src/editor.rs:162-169 | inserting ' ' into "Hello" with capacity 2 grows and gives the expected storage and content "Hello " |
| EditorTests.ScenarioInsertWithoutGrowth | src/editor.rs:55-62 | inserting ' ' into "Hello" with capacity 4 gives "Hello " without growing |
| State.Filtered | src/app.rs:54-65 | each pair is a position and the snippet there; positions strictly increase; a position is present exactly when its lowercased title contains the lowercased query |
| State.LowerChar | src/app.rs:61-62 | `to_lowercase` on one character: an upper-case ASCII letter becomes its lower-case letter, every other character is kept, and no result is upper-case |
| State.Lower | src/app.rs:61-62 | `to_lowercase` on a string: the same length, each character lowered as `State.LowerChar` says |
| State.Contains | src/app.rs:62 | `str::contains`: the needle occurs at some offset (`State.OccursAt`); a contained needle is no longer than the text, and a prefix of the text is contained in it |
| State.Matches | src/app.rs:58-63 | the filter's test: the lowercased title contains the lowercased query; the empty query matches every snippet, and a match needs a query no longer than the title |
| State.QueryCaseIgnored | src/app.rs:61-62 | a query matches exactly when its lowercased form does, so the query's case does not matter |
| State.AppState.FilteredSnippets | src/app.rs:54-65 | the view `State.Filtered` gives of the state's list by its query; with an empty query it is the whole list, numbered in order |
| State.EmptyQueryKeepsAll | src/app.rs:54-65 | with an empty query the view is every snippet, numbered 0 to n-1 in order |
| State.FilterScenario | src/app.rs:54-65 | "Print function", "Loop macro", "Print macro" filtered by "print" keep positions 0 and 2 |
| State.AppState.Initial | src/app.rs:111-120 | Command mode, selection 0, empty query, no exit request, both focus flags false |
| State.AppState.GetSelectedSnippetIndex | src/app.rs:67-71 | present exactly when the selection lies inside the filtered view; then it is that entry's list position, which holds a matching snippet |
| State.AppState.GetContent | src/app.rs:44-52 | absent exactly when no snippet is selected; otherwise the selected snippet's code |
| State.AppState.GetCurrentSnippet | src/app.rs:73-79 | absent exactly when no snippet is selected; otherwise the selected snippet, which matches the query |
| State.AppState.FocusEditor | src/app.rs:81-83 | the editor flag is set and nothing else changes |
| State.AppState.FocusSearch | src/app.rs:85-87 | the search flag is set and nothing else changes |
| State.AppState.BlurSearch | src/app.rs:89-91 | the search flag is cleared and nothing else changes |
| State.AppState.BlurEditor | src/app.rs:93-95 | the editor flag is cleared and nothing else changes |
| State.AppState.Blur | src/app.rs:97-100 | both flags are cleared and nothing else changes |
| View.NextIndex | src/view.rs:74-81 | unchanged on an empty list; otherwise inside the list, one step on, wrapping from the last entry to 0 |
| View.PreviousIndex | src/view.rs:83-93 | unchanged on an empty list; 0 goes to the last entry; otherwise one step back; inside the list it stays inside |
| View.PreviousUndoesNext | src/view.rs:74-93 | inside the list, going back undoes going forward |
| View.NextUndoesPrevious | src/view.rs:74-93 | inside the list, going forward undoes going back |
| View.NextTimesAdvances | src/view.rs:74-81 | short of the end of the list, k steps forward add k |
| View.NextCycles | src/view.rs:74-81 | as many steps forward as there are snippets come back to the start |
| View.ListSelection | src/view.rs:53-70 | only a press of `j` or `k` moves the selection, to the next or previous entry; a selection inside the list stays inside |
| View.SelectNext | src/view.rs:74-81 | sets the selection as `NextIndex` over the whole list's length |
| View.SelectPrevious | src/view.rs:83-93 | sets the selection as `PreviousIndex` over the whole list's length |
| View.ListHandleEvent | src/view.rs:53-70 | sets the selection as `ListSelection` says, and nothing else changes |
| View.CountNewlines | src/view.rs:193 | the count is the number of newlines in the text |
| View.LineStart | src/view.rs:194-198 | no newline follows the position, and a newline is just before it unless it is 0 |
| View.CursorCoordinates | src/view.rs:192-203 | the row is the area's top plus one plus the number of newlines; the column offset counts the characters since the last newline |
| View.CursorAfterChar | src/view.rs:192-203 | one more character before the cursor moves it one column right, or to the first column of the next row for a newline |
| View.EditedBy | src/view.rs:164-190 | every key keeps the buffer well formed and acts on its document as `DocKey` says |
| View.DocKey | src/view.rs:164-190 | the reference behaviour of each key on a text with a cursor keeps the cursor inside the text |
| View.FourSpaces | src/view.rs:183-188 | four single spaces typed in turn insert four spaces at the cursor |
| View.EditedByAll | src/view.rs:159-190 | any sequence of key presses keeps the buffer well formed |
| View.DocKeys | src/view.rs:159-190 | any sequence of keys keeps the document's cursor inside its text |
| View.EditorRefinesDocument | src/view.rs:159-190 | for every sequence of keys the buffer stands for the document the keys produce |
| View.DocKeysKeepNulsOut | src/view.rs:164-190 | keys that type no NUL keep a NUL-free text NUL-free |
| View.EditorShowsDocument | src/view.rs:118-130 | after loading a NUL-free snippet with 1024 spare slots, any NUL-free keys leave on screen exactly the document's text |
| View.BeforeGapIsBeforeCursor | src/view.rs:192 | the storage before the gap is the document's text before its cursor |
| View.PressKey | src/view.rs:167-190 | changes the buffer in place as `EditedBy` says and keeps it valid |
| View.TypeTab | src/view.rs:183-188 | Tab types four spaces in a row, each as `Inserted` says |
| View.PlaceCursor | src/view.rs:191-204 | puts the terminal cursor over the document's cursor and asks for it to be shown |
| View.ShownCursor | src/view.rs:191-204 | the cursor position over a buffer is the projection of the storage before the gap, which is the document's text before its cursor |
| View.EditorComponent.constructor | src/view.rs:212-222 | no buffer and no loaded selection |
| View.EditorComponent.Refresh | src/view.rs:118-124 | the selection is loaded afterwards: unchanged buffer if it already was, otherwise a fresh buffer of the selected code with 1024 spare slots |
| View.EditorComponent.HandleEvent | src/view.rs:159-209 | a key press edits the buffer as `EditedBy` says, then places and shows the cursor; any other event changes nothing |
| App.RouteOf | src/app.rs:221-256 | Esc of any kind escapes in every mode; any other key goes to the current mode's handler and only there; events other than keys are dropped |
| App.Switched | src/app.rs:128-149 | a press of `q` requests exit, `e`, `s` and `/` select Edit, Select and Search; anything else, including other kinds, changes nothing; the focus flags are untouched |
| App.ControlStep | src/app.rs:222-253 | Esc gives Command mode with both focus flags false; in Command mode `switch_mode` decides; other handlers leave the control state alone; no step enters Popup, raises a focus flag or clears the exit request (the Search and Popup arms taken as leaving the control state alone) |
| App.EffectsOf | src/app.rs:224-252 | Esc syncs and then saves, and no other event does either; Search and Popup keys go to their components |
| App.KeyedBy | src/app.rs:240-243 | the buffer after one event: a press in Edit mode acts on the document as `DocKey` says, and any other event leaves the buffer as it is |
| App.RunControl | src/app.rs:168-261 | no run of the loop enters Popup mode or raises a focus flag; once exit is requested nothing changes |
| App.Consumed | src/app.rs:168 | the loop reads every event unless an exit request stops it first; with exit already requested it reads none |
| App.ConsumedStopsAtFirstExit | src/app.rs:167-168 | the events the loop reads already bring the control state to its end, and before the last one read no exit was requested, so the loop stops right after the first exit request |
| App.RunEffects | src/app.rs:221-256 | the calls `run` makes outside the model: none once exit was requested, and no sync or save unless some event read is an Esc |
| App.RunSelection | src/app.rs:236-239 | the selection after the loop: it stays inside the list, stays put once exit was requested, and stays put when no `j` or `k` key is read |
| App.OneSavePerEsc | src/app.rs:224-231 | the loop syncs and saves exactly once per Esc it reads |
| App.FromStart | src/app.rs:111-149 | from the initial state no sequence of events reaches Popup mode or sets a focus flag, with the search box and the popup taken as leaving the control state alone |
| App.EditThenEscape | src/app.rs:224-231 | `e` then Esc goes to Edit and back to Command with exactly one sync and one save |
| App.QuitStopsReading | src/app.rs:133-168 | after a press of `q` no further event is read |
| App.App.constructor | src/app.rs:109-126 | the initial state around the loaded snippets, with an empty editor and no effects yet |
| App.App.SwitchMode | src/app.rs:128-149 | changes the control state as `Switched` says |
| App.App.EscapeToCommand | src/app.rs:224-231 | Command mode, both focus flags false, then a sync and a save are logged |
| App.App.Step | src/app.rs:221-256 | changes the control state as `ControlStep` says, logs `EffectsOf`, and leaves the list, query and area alone; the selection moves only in Select mode, as `ListSelection` says; only a press in Edit mode changes the buffer, as `EditedBy` says, and places and shows the cursor; otherwise both cursor fields stay |
| App.App.Dispatch | src/app.rs:224-252 | Esc, `switch_mode` and the Search and Popup arms change the control state as `ControlStep` says and log `EffectsOf` |
| App.App.Deliver | src/app.rs:236-243 | the Select and Edit arms: the selection moves as `ListSelection` says; a press in Edit mode changes the buffer as `EditedBy` says and places and shows the cursor; otherwise the buffer and both cursor fields stay; no other field is in its frame |
| App.App.Cycle | src/app.rs:168-256 | one turn of the loop, keeping the object valid, the list, the empty query and the area: the editor holds the selected snippet (the old buffer if it was already loaded, else the snippet's code with 1024 spare slots), then the event acts on it as `KeyedBy` says; the selection moves as `ListSelection` says and stays inside the list; the cursor fields follow a press in Edit mode and stay otherwise; the control state and the log change as `ControlStep` and `EffectsOf` say |
| App.App.Run | src/app.rs:167-263 | the loop keeps the object valid, the list, the empty query, the area and a selection inside the list; any editor storage it adds is freshly allocated; it reads `Consumed` events, ends in the control state `RunControl` gives and with the selection `RunSelection` gives, and logs `RunEffects` |
| App.SelectionHasContent | src/view.rs:118-121 | with no query, a selection inside the list always has code to load, so the `expect` of `render` cannot fail |
| App.QueryThenNextLeavesView | src/view.rs:74-81 | with "print" in the query, `j` from the top selects list position 2, and a second `j` selects past the two-entry filtered view, where there is no snippet and no content |

## Left out

- Rendering is not modelled: `render_outer_block`, the layout split, every `render` body, the list items and syntax highlighting. Only the reloading of the editor's buffer when the selection changes is kept (`EditorComponent.Refresh`).
- The computation of `current_area` from the layout is not modelled. The area is a field that `run` never changes in the model: `App.App.Cycle` and `App.App.Run` ensure it is kept.
- Persistence (`src/persistence.rs`) is not modelled. `save_snippets` is the effect `SaveSnippets`, `load_snippets` is the constructor's parameter, and a failing save, which ends `run` with an error, is not modelled.
- `src/main.rs`, the logger and the terminal set-up are not part of this model. Logging has no effect on the state.
- The blocking `event::read` and its error branch are not modelled. The loop takes its events as a sequence.
- `sync_buffer_to_state` is only logged as `SyncBuffer`. Its write-back of the buffer into the snippet list is not modelled, because it is not defined in the modelled files.
- The search box and the popup components are only logged (`SearchInput`, `PopupInput`). The model assumes they leave the mode, the exit request, the focus flags, the query and the selection alone, because their code is not in the modelled files. The results that depend on this are marked below.
- App.ControlStep: that no step enters Popup mode or raises a focus flag holds only under the assumption about the search box and the popup above.
- App.FromStart: holds only under the same assumption; a search box that sets a focus flag or a popup entered from it would break it.
- App.App.Run: it does not state the editor's final buffer or the final cursor fields. `App.App.Cycle` states both for one turn of the loop.
- A failing draw (`?` after `terminal.draw` at src/app.rs:219) ends `run` with an error. The model does not model drawing, so it has no such exit.
- `AppState` in src/app.rs has no `should_show_cursor` or `cursor_coordinates` field, although src/view.rs sets both. The model adds them to `State.AppState`.
- State.Lower: it lowercases ASCII letters only, not all of Unicode as `to_lowercase` does.
- View.CursorCoordinates: it computes with unbounded naturals and does not model the `u16` casts.
- Editor.FromText: it requires `|text| + capacity >= 1`, because `length + capacity - 1` underflows otherwise. `Editor.GapBuffer.FromStr` requires the same.
- Editor.Inserted: it requires a well-formed buffer: a NUL gap of width at least 1 and a capacity of at least 2. With capacity 1 the gap can be filled without growing (`Editor.CapacityOneExhaustsTheGap`), after which `gap_end - gap_start` underflows. `Editor.GapBuffer.InsertChar`, `View.EditedBy` and `View.PressKey` require the same.
- Editor.Grown: it requires a capacity of at least 1, since with capacity 0 the new gap would be empty. `Editor.GapBuffer.Grow` requires the same. Every buffer the program builds has capacity 1024.
- Editor.MovedRight: it requires `index + (gap_end - gap_start) < len`, the bound that keeps the array write in range.
- App.App.Run: it requires an empty query and a selection inside the list. This is what `render`'s `expect` needs on the first frame. The model keeps both true on every later frame only under the assumption about the search box above: with a query, the selection can leave the filtered view (`App.QueryThenNextLeavesView`), and `render`'s `expect` would then fail. `App.App.Cycle` and `App.SelectionHasContent` rest on the same requires.
- The editor's `handle_event` in the source panics when no buffer is loaded. The model requires a loaded buffer (`View.EditorComponent.HandleEvent`), and `run` always loads one first.

Where the code departs from what the program evidently means to do, the model follows the code:

- `select_next` and `select_previous` (src/view.rs:74-93) wrap modulo the length of the whole list, although `get_content` looks the selection up in the filtered view (src/app.rs:44-71). `App.QueryThenNextLeavesView` shows a selection leaving the view.
- `AppMode::Popup` exists, but nothing in src/app.rs or src/view.rs enters it.
- `focus_editor` and `focus_search` exist in src/app.rs, but nothing in src/app.rs or src/view.rs calls them.
- Esc also syncs and saves when the program is already in Command mode.

The gap buffer is the exception: the model uses the corrected `grow` and
`move_gap` (see Findings), and the written versions stand beside them as
values.

- View.EditedBy, View.PressKey, View.EditorComponent.HandleEvent, App.KeyedBy, App.App.Step and App.App.Cycle are stated over the corrected `grow` and `move_gap`. In the written program, Right at the end of the text panics in `move_gap_right`, a Left after a growth loses a character, and the spare room does not double from one growth to the next.

`ViewManager` in src/view.rs has no `search_component` or `add_snippet_popup_component`, although `run` calls both. Those components are not part of this model; it treats them as the opaque effects above.

## Findings

| source | as written | input that shows it | evidently intended | confidence | as-written member | corrected member |
|---|---|---|---|---|---|---|
| src/editor.rs:74 | `move_gap` turns an index away only when `index + gap_size > buffer.len()` | cursor at the end of the text and the Right key: `move_gap(gap_start + 1)` passes the guard, and `move_gap_right` reads `buffer[buffer.len()]` | turn the index away when `index + gap_size >= buffer.len()`, that is, past the end of the text | not executed | Editor.RightAtEndPassesWrittenGuard | Editor.Moved |
| src/editor.rs:49-51 | `grow` sets `gap_end` to the new length before the tail is appended, one past the last NUL | the `grow` unit test's buffer (`"Hello"`, cursor after `H`), grown and then moved left once, shows `"Hllo"` | `gap_end` is the last NUL of the new gap | not executed | Editor.WrittenGrowLosesACharacter | Editor.Grown |
| src/editor.rs:42 | `grow` doubles `capacity` but never stores the doubled value | any buffer grown twice: both growths add `2 * capacity` slots of the initial capacity | store the doubled capacity, so that each growth doubles the previous one | not executed | Editor.WrittenGrowthIsConstant | Editor.GrowthDoubles |
