/**
 * The components of src/view.rs: the snippet list with its wrap-around
 * selection, and the editor, which applies key presses to its gap buffer,
 * places the cursor, and shows the buffer with the NULs dropped.
 *
 * The key handling is modelled twice: `EditedBy` says what a key does to a
 * gap buffer value, `DocKey` what it should do to a plain text with a
 * cursor, and `EditorRefinesDocument` proves the two agree on every
 * sequence of keys. `EditorComponent.HandleEvent` is proved against
 * `EditedBy`.
 */
module View {
  import opened Wrappers
  import opened Events
  import opened Editor
  import opened State

  // ---------------------------------------------------------------------
  // The snippet list
  // ---------------------------------------------------------------------

  /** `select_next`: one step forward, wrapping to 0; nothing happens on an empty list. */
  function NextIndex(i: nat, len: nat): (r: nat)
    ensures len == 0 ==> r == i
    ensures len > 0 ==> r < len
    ensures len > 0 && i + 1 < len ==> r == i + 1
    ensures len > 0 && i + 1 == len ==> r == 0
  {
    if len == 0 then i else (i + 1) % len
  }

  /**
   * `select_previous`: one step back, wrapping from 0 to the last entry;
   * nothing happens on an empty list. Inside the list it stays inside.
   */
  function PreviousIndex(i: nat, len: nat): (r: nat)
    ensures len == 0 ==> r == i
    ensures len > 0 && i == 0 ==> r == len - 1
    ensures len > 0 && i > 0 ==> r == i - 1
    ensures i < len ==> r < len
  {
    if len == 0 then i else if i == 0 then len - 1 else i - 1
  }

  /** Going back undoes going forward, for every position inside the list. */
  lemma PreviousUndoesNext(i: nat, len: nat)
    requires i < len
    ensures PreviousIndex(NextIndex(i, len), len) == i
  {
  }

  /** Going forward undoes going back, for every position inside the list. */
  lemma NextUndoesPrevious(i: nat, len: nat)
    requires i < len
    ensures NextIndex(PreviousIndex(i, len), len) == i
  {
  }

  /** `k` presses of `j` from position `i`. */
  function NextTimes(i: nat, len: nat, k: nat): nat
  {
    if k == 0 then i else NextIndex(NextTimes(i, len, k - 1), len)
  }

  /** Short of the end of the list, `k` presses of `j` move the selection `k` places. */
  lemma {:induction false} NextTimesAdvances(i: nat, len: nat, k: nat)
    requires i + k < len
    ensures NextTimes(i, len, k) == i + k
  {
    if k > 0 {
      NextTimesAdvances(i, len, k - 1);
    }
  }

  /** Presses of `j` add up. */
  lemma {:induction false} NextTimesAdd(i: nat, len: nat, a: nat, b: nat)
    ensures NextTimes(i, len, a + b) == NextTimes(NextTimes(i, len, a), len, b)
  {
    if b > 0 {
      NextTimesAdd(i, len, a, b - 1);
    }
  }

  /** Pressing `j` as many times as there are snippets comes back to the start. */
  lemma NextCycles(i: nat, len: nat)
    requires i < len
    ensures NextTimes(i, len, len) == i
  {
    NextTimesAdvances(i, len, len - i - 1);
    assert NextTimes(i, len, len - i) == 0;
    NextTimesAdd(i, len, len - i, i);
    if i > 0 {
      NextTimesAdvances(0, len, i);
    }
  }

  /**
   * What the list component does with an event to the selection: a press of
   * `j` selects the next entry, a press of `k` the previous one, and every
   * other event, including a `j` or `k` repeat or release, changes nothing.
   */
  function ListSelection(e: Event, i: nat, len: nat): (r: nat)
    ensures e == Key(Char('j'), Press) ==> r == NextIndex(i, len)
    ensures e == Key(Char('k'), Press) ==> r == PreviousIndex(i, len)
    ensures e != Key(Char('j'), Press) && e != Key(Char('k'), Press) ==> r == i
    ensures i < len ==> r < len
  {
    if e == Key(Char('j'), Press) then NextIndex(i, len)
    else if e == Key(Char('k'), Press) then PreviousIndex(i, len)
    else i
  }

  /** `SnippetListComponent::select_next`: the step is taken over the whole list, not the filtered view. */
  method SelectNext(state: AppState)
    modifies state`selectedIndex
    ensures state.selectedIndex == NextIndex(old(state.selectedIndex), |state.snippetList|)
  {
    var length := |state.snippetList|;
    if length == 0 {
      return;
    }
    var index := state.selectedIndex + 1;
    state.selectedIndex := index % length;
  }

  /** `SnippetListComponent::select_previous`. */
  method SelectPrevious(state: AppState)
    modifies state`selectedIndex
    ensures state.selectedIndex == PreviousIndex(old(state.selectedIndex), |state.snippetList|)
  {
    var length := |state.snippetList|;
    if length == 0 {
      return;
    }
    if state.selectedIndex == 0 {
      state.selectedIndex := length - 1;
    } else {
      state.selectedIndex := state.selectedIndex - 1;
    }
  }

  /** `SnippetListComponent::handle_event`. */
  method ListHandleEvent(e: Event, state: AppState)
    modifies state`selectedIndex
    ensures state.selectedIndex == ListSelection(e, old(state.selectedIndex), |state.snippetList|)
  {
    match e {
      case Key(code, kind) =>
        if code == Char('j') {
          if kind == Press {
            SelectNext(state);
          }
        } else if code == Char('k') {
          if kind == Press {
            SelectPrevious(state);
          }
        }
      case NonKey =>
    }
  }

  // ---------------------------------------------------------------------
  // The cursor projection
  // ---------------------------------------------------------------------

  /** The number of newlines in `s` (`filter(..).count()`). */
  function CountNewlines(s: seq<char>): (n: nat)
    ensures n == multiset(s)['\n']
  {
    if s == [] then 0
    else
      assert s == s[..|s| - 1] + [s[|s| - 1]];
      CountNewlines(s[..|s| - 1]) + (if s[|s| - 1] == '\n' then 1 else 0)
  }

  /**
   * Where the last line of `s` starts: one past the last newline, or 0 when
   * there is none (`rposition(..).map(|p| p + 1).unwrap_or(0)`).
   */
  function LineStart(s: seq<char>): (p: nat)
    ensures p <= |s|
    ensures forall i :: p <= i < |s| ==> s[i] != '\n'
    ensures p > 0 ==> s[p - 1] == '\n'
  {
    if s == [] then 0
    else if s[|s| - 1] == '\n' then |s|
    else LineStart(s[..|s| - 1])
  }

  /**
   * The terminal position of the cursor after the text `before` in an area:
   * one line per newline below the area's top border, one column per
   * character since the last newline right of its left border.
   */
  function CursorCoordinates(before: seq<char>, area: Rect): (r: (nat, nat))
    ensures r.1 == area.y + 1 + multiset(before)['\n']
    ensures area.x + 1 <= r.0 <= area.x + 1 + |before|
    ensures forall i :: |before| - (r.0 - area.x - 1) <= i < |before| ==> before[i] != '\n'
    ensures r.0 - area.x - 1 < |before| ==> before[|before| - (r.0 - area.x - 1) - 1] == '\n'
  {
    var lineCount := CountNewlines(before) + 1;
    var lastNewline := LineStart(before);
    var column := |before| - lastNewline;
    (area.x + column + 1, area.y + lineCount)
  }

  /**
   * Typing one more character before the cursor: a newline moves the cursor
   * to the first column of the next line, any other character one column
   * right on the same line.
   */
  lemma CursorAfterChar(before: seq<char>, c: char, area: Rect)
    ensures var p, q := CursorCoordinates(before, area), CursorCoordinates(before + [c], area);
      if c == '\n' then q == (area.x + 1, p.1 + 1) else q == (p.0 + 1, p.1)
  {
    assert (before + [c])[..|before|] == before;
  }

  // ---------------------------------------------------------------------
  // The editor's keys
  // ---------------------------------------------------------------------

  /** The editor's `handle_event` on a key press, as a function of the buffer. */
  function EditedBy(g: Gap, code: KeyCode): (r: Gap)
    requires WellFormed(g)
    ensures WellFormed(r)
    ensures Abs(r) == DocKey(Abs(g), code)
  {
    match code
    case Char(c) => Inserted(g, c)
    case Enter => Inserted(g, '\n')
    case Backspace => Deleted(g)
    case Left => Moved(g, if g.gapStart == 0 then 0 else g.gapStart - 1)
    case Right => Moved(g, g.gapStart + 1)
    case Tab =>
      var r := Inserted(Inserted(Inserted(Inserted(g, ' '), ' '), ' '), ' ');
      FourSpaces(Abs(g));
      r
    case _ => g
  }

  /**
   * What each key should do to a text with a cursor: a character or Enter
   * is typed, Backspace removes the character before the cursor, Left and
   * Right move the cursor and stop at the ends of the text, Tab types four
   * spaces, and every other key does nothing.
   */
  function DocKey(d: Doc, code: KeyCode): (r: Doc)
    requires DocValid(d)
    ensures DocValid(r)
  {
    match code
    case Char(c) => DocInsert(d, c)
    case Enter => DocInsert(d, '\n')
    case Backspace => DocDelete(d)
    case Left => if d.cursor == 0 then d else Doc(d.text, d.cursor - 1)
    case Right => if d.cursor < |d.text| then Doc(d.text, d.cursor + 1) else d
    case Tab => Doc(d.text[..d.cursor] + "    " + d.text[d.cursor..], d.cursor + 4)
    case _ => d
  }

  /** Typing a character splits the text at the cursor around it. */
  lemma DocInsertSplits(d: Doc, c: char)
    requires DocValid(d)
    ensures DocInsert(d, c).text[..d.cursor + 1] == d.text[..d.cursor] + [c]
    ensures DocInsert(d, c).text[d.cursor + 1..] == d.text[d.cursor..]
  {
  }

  /** Four spaces typed one by one are the four spaces of Tab. */
  lemma FourSpaces(d: Doc)
    requires DocValid(d)
    ensures DocInsert(DocInsert(DocInsert(DocInsert(d, ' '), ' '), ' '), ' ')
      == Doc(d.text[..d.cursor] + "    " + d.text[d.cursor..], d.cursor + 4)
  {
    var d1 := DocInsert(d, ' ');
    var d2 := DocInsert(d1, ' ');
    var d3 := DocInsert(d2, ' ');
    DocInsertSplits(d, ' ');
    DocInsertSplits(d1, ' ');
    DocInsertSplits(d2, ' ');
    assert d3.text[..d3.cursor] == d.text[..d.cursor] + [' ', ' ', ' '];
    assert d3.text[d3.cursor..] == d.text[d.cursor..];
  }

  /** A sequence of key presses applied to a buffer, one after the other. */
  function EditedByAll(g: Gap, codes: seq<KeyCode>): (r: Gap)
    requires WellFormed(g)
    ensures WellFormed(r)
    decreases |codes|
  {
    if codes == [] then g else EditedByAll(EditedBy(g, codes[0]), codes[1..])
  }

  /** The same sequence applied to a text with a cursor. */
  function DocKeys(d: Doc, codes: seq<KeyCode>): (r: Doc)
    requires DocValid(d)
    ensures DocValid(r)
    decreases |codes|
  {
    if codes == [] then d else DocKeys(DocKey(d, codes[0]), codes[1..])
  }

  /** Whatever keys are pressed, the buffer stands for the text the keys should produce. */
  lemma {:induction false} EditorRefinesDocument(g: Gap, codes: seq<KeyCode>)
    requires WellFormed(g)
    ensures Abs(EditedByAll(g, codes)) == DocKeys(Abs(g), codes)
    decreases |codes|
  {
    if codes != [] {
      EditorRefinesDocument(EditedBy(g, codes[0]), codes[1..]);
    }
  }

  /** A key that cannot type a NUL. */
  predicate NulFree(code: KeyCode)
  {
    code != Char(NUL)
  }

  /** Keys that type no NUL keep a text free of NULs. */
  lemma {:induction false} DocKeysKeepNulsOut(d: Doc, codes: seq<KeyCode>)
    requires DocValid(d) && NUL !in d.text
    requires forall k :: 0 <= k < |codes| ==> NulFree(codes[k])
    ensures NUL !in DocKeys(d, codes).text
    decreases |codes|
  {
    if codes != [] {
      var e := DocKey(d, codes[0]);
      assert d.text == d.text[..d.cursor] + d.text[d.cursor..];
      assert NUL !in e.text;
      DocKeysKeepNulsOut(e, codes[1..]);
    }
  }

  /**
   * The editor shows what the keys should produce: from a snippet without
   * NULs, after keys that type no NUL, the text on screen (the storage
   * without its NULs, as `render` filters it) is the document's text.
   */
  lemma EditorShowsDocument(text: string, codes: seq<KeyCode>)
    requires NUL !in text
    requires forall k :: 0 <= k < |codes| ==> NulFree(codes[k])
    ensures WithoutNuls(EditedByAll(FromText(text, 1024), codes).buffer) == DocKeys(Doc(text, |text|), codes).text
  {
    var g := FromText(text, 1024);
    var h := EditedByAll(g, codes);
    EditorRefinesDocument(g, codes);
    DocKeysKeepNulsOut(Doc(text, |text|), codes);
    DisplayedTextIsContent(h);
  }

  /** The text before the gap is the document's text before its cursor. */
  lemma BeforeGapIsBeforeCursor(g: Gap)
    requires Bounded(g)
    ensures g.buffer[..g.gapStart] == Abs(g).text[..Abs(g).cursor]
  {
  }

  /**
   * Where the editor puts the terminal cursor over a buffer: after the
   * document's text before its cursor, which is the storage before the gap.
   */
  function ShownCursor(g: Gap, area: Rect): (r: (nat, nat))
    requires Bounded(g)
    ensures r == CursorCoordinates(g.buffer[..g.gapStart], area)
  {
    BeforeGapIsBeforeCursor(g);
    CursorCoordinates(Abs(g).text[..Abs(g).cursor], area)
  }

  /** The `match key.code` of the editor's `handle_event`, on the buffer in place. */
  method PressKey(buffer: GapBuffer, code: KeyCode)
    requires buffer.Valid()
    modifies buffer, buffer.buffer
    ensures buffer.Valid()
    ensures buffer.buffer == old(buffer.buffer) || fresh(buffer.buffer)
    ensures buffer.State() == EditedBy(old(buffer.State()), code)
  {
    match code {
      case Char(c) => buffer.InsertChar(c);
      case Enter => buffer.InsertChar('\n');
      case Backspace => buffer.DeleteChar();
      case Left => buffer.MoveGap(if buffer.gapStart == 0 then 0 else buffer.gapStart - 1);
      case Right => buffer.MoveGap(buffer.gapStart + 1);
      case Tab => TypeTab(buffer);
      case _ =>
    }
  }

  /** Tab: four spaces typed one after another. */
  method TypeTab(buffer: GapBuffer)
    requires buffer.Valid()
    modifies buffer, buffer.buffer
    ensures buffer.Valid()
    ensures buffer.buffer == old(buffer.buffer) || fresh(buffer.buffer)
    ensures buffer.State() == Inserted(Inserted(Inserted(Inserted(old(buffer.State()), ' '), ' '), ' '), ' ')
  {
    buffer.InsertChar(' ');
    buffer.InsertChar(' ');
    buffer.InsertChar(' ');
    buffer.InsertChar(' ');
  }

  /** The end of the editor's `handle_event`: the cursor goes over the document's cursor and is shown. */
  method PlaceCursor(buffer: GapBuffer, state: AppState)
    requires Bounded(buffer.State())
    modifies state`cursorCoordinates, state`shouldShowCursor
    ensures state.cursorCoordinates == ShownCursor(buffer.State(), state.currentArea)
    ensures state.shouldShowCursor
  {
    var textBeforeCursor := buffer.buffer[..buffer.gapStart];
    state.cursorCoordinates := CursorCoordinates(textBeforeCursor, state.currentArea);
    state.shouldShowCursor := true;
  }

  // ---------------------------------------------------------------------
  // The editor component
  // ---------------------------------------------------------------------

  /** `EditorComponent`: the buffer being edited and the selection it was loaded for. */
  class EditorComponent {
    var gapBuffer: GapBuffer?
    var selectedIndex: Option<nat>

    /** The storage of the buffer, if there is one: the objects the component owns besides itself. */
    function Storage(): (r: set<object?>)
      reads this, gapBuffer
      ensures this !in r
    {
      if gapBuffer == null then {} else {gapBuffer, gapBuffer.buffer}
    }

    /** A selection, once loaded, has a buffer, and the buffer is well formed. */
    predicate Valid()
      reads this, Storage()
    {
      && (selectedIndex.Some? ==> gapBuffer != null)
      && (gapBuffer != null ==> gapBuffer.Valid())
    }

    /** `EditorComponent::new`: no buffer yet, and no selection loaded. */
    constructor ()
      ensures Valid()
      ensures gapBuffer == null && selectedIndex == None
    {
      gapBuffer := null;
      selectedIndex := None;
    }

    /**
     * The part of `render` that keeps the buffer in step with the selection:
     * when another snippet is selected its code is loaded into a new buffer
     * with 1024 spare slots. A snippet must be selected then.
     */
    method Refresh(state: AppState)
      requires Valid()
      requires selectedIndex != Some(state.selectedIndex) ==> state.GetContent().Some?
      modifies this
      ensures Valid()
      ensures selectedIndex == Some(state.selectedIndex)
      ensures old(selectedIndex) == Some(state.selectedIndex) ==> gapBuffer == old(gapBuffer)
      ensures old(selectedIndex) != Some(state.selectedIndex) ==>
        gapBuffer != null && fresh(gapBuffer) && fresh(gapBuffer.buffer)
        && gapBuffer.State() == FromText(state.GetContent().value, 1024)
    {
      if selectedIndex != Some(state.selectedIndex) {
        var content := state.GetContent().value;
        gapBuffer := new GapBuffer.FromStr(content, 1024);
        selectedIndex := Some(state.selectedIndex);
      }
    }

    /**
     * `EditorComponent::handle_event`: a key press edits the buffer as
     * `EditedBy` says, then the cursor is placed over the document's cursor
     * and shown; every other event changes nothing.
     */
    method HandleEvent(e: Event, state: AppState)
      requires Valid() && gapBuffer != null
      modifies gapBuffer, gapBuffer.buffer, state`cursorCoordinates, state`shouldShowCursor
      ensures Valid()
      ensures gapBuffer.buffer == old(gapBuffer.buffer) || fresh(gapBuffer.buffer)
      ensures !IsPress(e) ==>
        && gapBuffer.State() == old(gapBuffer.State())
        && state.cursorCoordinates == old(state.cursorCoordinates)
        && state.shouldShowCursor == old(state.shouldShowCursor)
      ensures IsPress(e) ==>
        && gapBuffer.State() == EditedBy(old(gapBuffer.State()), e.code)
        && state.cursorCoordinates == ShownCursor(gapBuffer.State(), state.currentArea)
        && state.shouldShowCursor
    {
      var buffer := gapBuffer;
      if e.Key? && e.kind == Press {
        PressKey(buffer, e.code);
        PlaceCursor(buffer, state);
      }
    }
  }
}
