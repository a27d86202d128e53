/**
 * The `App` half of src/app.rs: the mode machine of `switch_mode`, the
 * routing of an event in `run`, and the event loop itself.
 *
 * Calls whose code lies outside the modelled files become entries of an
 * effect log: `sync_buffer_to_state` and `save_snippets` on Esc, and the
 * event handed to the search box or the popup. The model assumes those
 * handlers leave the mode, the exit flag, the focus flags, the query and
 * the selection alone.
 */
module App {
  import opened Wrappers
  import opened Events
  import opened Editor
  import opened State
  import opened View

  /** A call of `run` into code outside the model, in the order made. */
  datatype Effect =
    | SyncBuffer               // editor_component.sync_buffer_to_state
    | SaveSnippets             // persistence::save_snippets of the snippet list
    | SearchInput(event: Event) // search_component.handle_event
    | PopupInput(event: Event)  // add_snippet_popup_component.handle_event

  /** Where `run` sends an event. */
  datatype Route = Escape | ToSwitchMode | ToList | ToEditor | ToSearch | ToPopup | Dropped

  predicate IsEsc(e: Event)
  {
    e.Key? && e.code == Esc
  }

  /**
   * The dispatch of `run`: Esc of any kind escapes, whatever the mode;
   * any other key goes to the handler of the current mode; an event that
   * is not a key is dropped.
   */
  function RouteOf(mode: AppMode, e: Event): (r: Route)
    ensures r == Escape <==> IsEsc(e)
    ensures r == Dropped <==> !e.Key?
    ensures r == ToSwitchMode <==> e.Key? && !IsEsc(e) && mode == Command
    ensures r == ToList <==> e.Key? && !IsEsc(e) && mode == Select
    ensures r == ToEditor <==> e.Key? && !IsEsc(e) && mode == Edit
    ensures r == ToSearch <==> e.Key? && !IsEsc(e) && mode == Search
    ensures r == ToPopup <==> e.Key? && !IsEsc(e) && mode == Popup
  {
    match e
    case NonKey => Dropped
    case Key(code, _) =>
      if code == Esc then Escape
      else match mode
        case Command => ToSwitchMode
        case Select => ToList
        case Edit => ToEditor
        case Search => ToSearch
        case Popup => ToPopup
  }

  /** The part of the state the mode machine works on. */
  datatype Control = Control(mode: AppMode, shouldExit: bool, focusedEditor: bool, focusedSearch: bool)

  /** The control state `App::new` starts from. */
  const Start := Control(Command, false, false, false)

  /**
   * `switch_mode`: a press of `q` asks to exit, `e`, `s` and `/` select
   * the Edit, Select and Search modes; every other event changes nothing,
   * and the focus flags never change.
   */
  function Switched(c: Control, e: Event): (r: Control)
    ensures r.focusedEditor == c.focusedEditor && r.focusedSearch == c.focusedSearch
    ensures e == Key(Char('q'), Press) ==> r == c.(shouldExit := true)
    ensures e == Key(Char('e'), Press) ==> r == c.(mode := Edit)
    ensures e == Key(Char('s'), Press) ==> r == c.(mode := Select)
    ensures e == Key(Char('/'), Press) ==> r == c.(mode := Search)
    ensures r != c ==> IsPress(e) && e.code in {Char('q'), Char('e'), Char('s'), Char('/')}
    ensures r.mode != c.mode ==> r.mode in {Edit, Select, Search}
  {
    if !IsPress(e) then c
    else if e.code == Char('q') then c.(shouldExit := true)
    else if e.code == Char('e') then c.(mode := Edit)
    else if e.code == Char('s') then c.(mode := Select)
    else if e.code == Char('/') then c.(mode := Search)
    else c
  }

  /**
   * One event of `run` on the control state: Esc returns to Command mode
   * and drops both focus flags; in Command mode the event goes to
   * `switch_mode`; every other handler leaves the control state alone
   * (for the search box and the popup, whose code is not modelled, this is
   * an assumption). No step enters Popup mode or raises a focus flag, and a
   * raised exit flag stays raised.
   */
  function ControlStep(c: Control, e: Event): (r: Control)
    ensures IsEsc(e) ==> r == Control(Command, c.shouldExit, false, false)
    ensures RouteOf(c.mode, e) == ToSwitchMode ==> r == Switched(c, e)
    ensures RouteOf(c.mode, e) !in {Escape, ToSwitchMode} ==> r == c
    ensures r.mode == Popup ==> c.mode == Popup
    ensures r.focusedEditor ==> c.focusedEditor
    ensures r.focusedSearch ==> c.focusedSearch
    ensures c.shouldExit ==> r.shouldExit
  {
    match RouteOf(c.mode, e)
    case Escape => c.(mode := Command, focusedEditor := false, focusedSearch := false)
    case ToSwitchMode => Switched(c, e)
    case _ => c
  }

  /**
   * The calls one event makes outside the model: Esc, of any kind, syncs
   * the editor's buffer and then saves, and nothing else saves; keys in
   * Search and Popup mode go to those components.
   */
  function EffectsOf(mode: AppMode, e: Event): (r: seq<Effect>)
    ensures IsEsc(e) ==> r == [SyncBuffer, SaveSnippets]
    ensures !IsEsc(e) ==> SaveSnippets !in r && SyncBuffer !in r
    ensures RouteOf(mode, e) == ToSearch ==> r == [SearchInput(e)]
    ensures RouteOf(mode, e) == ToPopup ==> r == [PopupInput(e)]
    ensures RouteOf(mode, e) !in {Escape, ToSearch, ToPopup} ==> r == []
  {
    match RouteOf(mode, e)
    case Escape => [SyncBuffer, SaveSnippets]
    case ToSearch => [SearchInput(e)]
    case ToPopup => [PopupInput(e)]
    case _ => []
  }

  /**
   * The editor's buffer after one event: a press in Edit mode edits it as
   * the key says, and nothing else touches it.
   */
  function KeyedBy(mode: AppMode, e: Event, g: Gap): (r: Gap)
    requires WellFormed(g)
    ensures WellFormed(r)
    ensures RouteOf(mode, e) == ToEditor && IsPress(e) ==> Abs(r) == DocKey(Abs(g), e.code)
    ensures RouteOf(mode, e) != ToEditor || !IsPress(e) ==> r == g
  {
    if RouteOf(mode, e) == ToEditor && IsPress(e) then EditedBy(g, e.code) else g
  }

  // ---------------------------------------------------------------------
  // The loop on values
  // ---------------------------------------------------------------------

  /** The control state once `run` has read as many of `events` as it does. */
  function RunControl(c: Control, events: seq<Event>): (r: Control)
    ensures r.mode == Popup ==> c.mode == Popup
    ensures r.focusedEditor ==> c.focusedEditor
    ensures r.focusedSearch ==> c.focusedSearch
    ensures c.shouldExit ==> r == c
    decreases |events|
  {
    if events == [] || c.shouldExit then c
    else RunControl(ControlStep(c, events[0]), events[1..])
  }

  /** How many of `events` `run` reads: all of them, unless it is asked to exit first. */
  function Consumed(c: Control, events: seq<Event>): (n: nat)
    ensures n <= |events|
    ensures n < |events| ==> RunControl(c, events).shouldExit
    ensures c.shouldExit ==> n == 0
    decreases |events|
  {
    if events == [] || c.shouldExit then 0
    else 1 + Consumed(ControlStep(c, events[0]), events[1..])
  }

  /**
   * `run` stops right after the first exit request: the events it reads
   * already bring the control state to its end, and the ones before the
   * last read did not ask to exit.
   */
  lemma {:induction false} ConsumedStopsAtFirstExit(c: Control, events: seq<Event>)
    ensures RunControl(c, events[..Consumed(c, events)]) == RunControl(c, events)
    ensures Consumed(c, events) > 0 ==> !RunControl(c, events[..Consumed(c, events) - 1]).shouldExit
    decreases |events|
  {
    if events != [] && !c.shouldExit {
      var next, rest := ControlStep(c, events[0]), events[1..];
      var n, m := Consumed(c, events), Consumed(next, rest);
      ConsumedStopsAtFirstExit(next, rest);
      assert events[..n][0] == events[0] && events[..n][1..] == rest[..m];
      if m > 0 {
        assert events[..n - 1][0] == events[0] && events[..n - 1][1..] == rest[..m - 1];
      } else {
        assert events[..n - 1] == [];
      }
    } else {
      assert events[..Consumed(c, events)] == [];
    }
  }

  /** The calls `run` makes outside the model while reading `events`. */
  function RunEffects(c: Control, events: seq<Event>): (r: seq<Effect>)
    ensures c.shouldExit ==> r == []
    ensures (forall k :: 0 <= k < |events| ==> !IsEsc(events[k])) ==> SaveSnippets !in r && SyncBuffer !in r
    decreases |events|
  {
    if events == [] || c.shouldExit then []
    else EffectsOf(c.mode, events[0]) + RunEffects(ControlStep(c, events[0]), events[1..])
  }

  /** One turn of `run` on values: the first event, then the rest from the state it leaves. */
  lemma RunUnfolds(c: Control, events: seq<Event>, done: seq<Effect>, sel: nat, n: nat)
    requires events != [] && !c.shouldExit
    ensures RunControl(c, events) == RunControl(ControlStep(c, events[0]), events[1..])
    ensures RunSelection(c, sel, n, events) == RunSelection(
      ControlStep(c, events[0]),
      if RouteOf(c.mode, events[0]) == ToList then ListSelection(events[0], sel, n) else sel,
      n, events[1..])
    ensures Consumed(c, events) == 1 + Consumed(ControlStep(c, events[0]), events[1..])
    ensures done + RunEffects(c, events)
      == (done + EffectsOf(c.mode, events[0])) + RunEffects(ControlStep(c, events[0]), events[1..])
  {
  }

  /**
   * The selection once `run` has read as many of `events` as it does, over
   * a list of `n` snippets: a key read in Select mode moves it as the list
   * handler says, and nothing else does.
   */
  function RunSelection(c: Control, sel: nat, n: nat, events: seq<Event>): (r: nat)
    ensures sel < n ==> r < n
    ensures c.shouldExit ==> r == sel
    ensures (forall k :: 0 <= k < |events| ==> !events[k].Key? || events[k].code !in {Char('j'), Char('k')}) ==> r == sel
    decreases |events|
  {
    if events == [] || c.shouldExit then sel
    else
      var next := if RouteOf(c.mode, events[0]) == ToList then ListSelection(events[0], sel, n) else sel;
      RunSelection(ControlStep(c, events[0]), next, n, events[1..])
  }

  /** The number of Esc events in `events`. */
  function EscCount(events: seq<Event>): nat
  {
    if events == [] then 0 else (if IsEsc(events[0]) then 1 else 0) + EscCount(events[1..])
  }

  /** `run` saves once per Esc it reads, and at no other time. */
  lemma {:induction false} OneSavePerEsc(c: Control, events: seq<Event>)
    ensures multiset(RunEffects(c, events))[SaveSnippets] == EscCount(events[..Consumed(c, events)])
    ensures multiset(RunEffects(c, events))[SyncBuffer] == EscCount(events[..Consumed(c, events)])
    decreases |events|
  {
    if events != [] && !c.shouldExit {
      var n := Consumed(c, events);
      var now, later := EffectsOf(c.mode, events[0]), RunEffects(ControlStep(c, events[0]), events[1..]);
      OneSavePerEsc(ControlStep(c, events[0]), events[1..]);
      assert multiset(RunEffects(c, events)) == multiset(now) + multiset(later);
      assert multiset(now)[SaveSnippets] == multiset(now)[SyncBuffer] == if IsEsc(events[0]) then 1 else 0;
      assert events[..n][1..] == events[1..][..n - 1];
      assert EscCount(events[..n]) == (if IsEsc(events[0]) then 1 else 0) + EscCount(events[1..][..n - 1]);
    }
  }

  /**
   * From the start of the program, Popup mode is never entered and no input
   * gains the focus, with the search box and the popup taken as leaving the
   * control state alone.
   */
  lemma FromStart(events: seq<Event>)
    ensures RunControl(Start, events).mode != Popup
    ensures !RunControl(Start, events).focusedEditor && !RunControl(Start, events).focusedSearch
  {
  }

  /** `e` then Esc: Edit mode, then back to Command mode with one sync and one save. */
  lemma EditThenEscape()
    ensures ControlStep(Start, Key(Char('e'), Press)).mode == Edit
    ensures RunControl(Start, [Key(Char('e'), Press), Key(Esc, Press)]) == Start
    ensures RunEffects(Start, [Key(Char('e'), Press), Key(Esc, Press)]) == [SyncBuffer, SaveSnippets]
  {
    var events := [Key(Char('e'), Press), Key(Esc, Press)];
    assert events[1..] == [Key(Esc, Press)];
    assert events[1..][1..] == [];
  }

  /** `q` ends the loop: the events after it are never read. */
  lemma QuitStopsReading(rest: seq<Event>)
    ensures Consumed(Start, [Key(Char('q'), Press)] + rest) == 1
    ensures RunControl(Start, [Key(Char('q'), Press)] + rest).shouldExit
  {
    var events := [Key(Char('q'), Press)] + rest;
    assert events[1..] == rest;
  }

  // ---------------------------------------------------------------------
  // The application in place
  // ---------------------------------------------------------------------

  /** `App`: the state, the editor component, and the calls made outside the model so far. */
  class App {
    var appState: AppState
    var editor: EditorComponent
    var effects: seq<Effect>

    predicate Valid()
      reads this, editor, editor.Storage()
    {
      editor.Valid()
    }

    /** The control state of the application. */
    function ControlOf(): Control
      reads this, appState
    {
      Control(appState.mode, appState.shouldExit, appState.focusedEditor, appState.focusedSearch)
    }

    /** `App::new`, given the snippets `load_snippets` returned. */
    constructor (snippets: seq<Snippet>)
      ensures Valid() && fresh(appState) && fresh(editor)
      ensures ControlOf() == Start
      ensures appState.snippetList == snippets && appState.selectedIndex == 0 && appState.searchQuery == ""
      ensures editor.gapBuffer == null && editor.selectedIndex == None
      ensures effects == []
    {
      appState := new AppState.Initial(snippets);
      editor := new EditorComponent();
      effects := [];
    }

    /** `switch_mode`. */
    method SwitchMode(e: Event)
      modifies appState`mode, appState`shouldExit
      ensures ControlOf() == Switched(old(ControlOf()), e)
    {
      match e {
        case Key(code, kind) =>
          if kind == Press {
            if code == Char('q') {
              appState.shouldExit := true;
            } else if code == Char('e') {
              appState.mode := Edit;
            } else if code == Char('s') {
              appState.mode := Select;
            } else if code == Char('/') {
              appState.mode := Search;
            }
          }
        case NonKey =>
      }
    }

    /** The Esc branch of `run`: Command mode, no focus, then sync and save. */
    method EscapeToCommand()
      modifies this`effects, appState`mode, appState`focusedEditor, appState`focusedSearch
      ensures ControlOf() == Control(Command, old(appState.shouldExit), false, false)
      ensures effects == old(effects) + [SyncBuffer, SaveSnippets]
    {
      appState.mode := Command;
      appState.Blur();
      effects := effects + [SyncBuffer];
      effects := effects + [SaveSnippets];
    }

    /** The arms of `run`'s dispatch that leave the components alone. */
    method Dispatch(e: Event)
      requires RouteOf(appState.mode, e) !in {ToList, ToEditor}
      modifies this`effects, appState`mode, appState`shouldExit, appState`focusedEditor, appState`focusedSearch
      ensures ControlOf() == ControlStep(old(ControlOf()), e)
      ensures effects == old(effects) + EffectsOf(old(appState.mode), e)
    {
      match RouteOf(appState.mode, e) {
        case Escape => EscapeToCommand();
        case ToSwitchMode => SwitchMode(e);
        case ToSearch => effects := effects + [SearchInput(e)];
        case ToPopup => effects := effects + [PopupInput(e)];
        case _ =>
      }
    }

    /** The arms of `run`'s dispatch that hand the key to the list or the editor. */
    method Deliver(e: Event)
      requires Valid()
      requires RouteOf(appState.mode, e) in {ToList, ToEditor}
      requires RouteOf(appState.mode, e) == ToEditor ==> editor.gapBuffer != null
      modifies appState`selectedIndex, appState`cursorCoordinates, appState`shouldShowCursor, editor.Storage()
      ensures Valid()
      ensures forall o :: o in editor.Storage() ==> o in old(editor.Storage()) || fresh(o)
      ensures appState.selectedIndex ==
        if RouteOf(appState.mode, e) == ToList
        then ListSelection(e, old(appState.selectedIndex), |appState.snippetList|)
        else old(appState.selectedIndex)
      ensures RouteOf(appState.mode, e) == ToEditor && IsPress(e) ==>
        editor.gapBuffer.State() == EditedBy(old(editor.gapBuffer.State()), e.code)
      ensures old(editor.gapBuffer) != null && (RouteOf(appState.mode, e) != ToEditor || !IsPress(e)) ==>
        editor.gapBuffer.State() == old(editor.gapBuffer.State())
      ensures RouteOf(appState.mode, e) == ToEditor && IsPress(e) ==>
        appState.cursorCoordinates == ShownCursor(editor.gapBuffer.State(), appState.currentArea)
        && appState.shouldShowCursor
      ensures RouteOf(appState.mode, e) != ToEditor || !IsPress(e) ==>
        appState.cursorCoordinates == old(appState.cursorCoordinates)
        && appState.shouldShowCursor == old(appState.shouldShowCursor)
    {
      if RouteOf(appState.mode, e) == ToList {
        ListHandleEvent(e, appState);
      } else {
        editor.HandleEvent(e, appState);
      }
    }

    /** One event read by `run`, handed on as `RouteOf` says. */
    method Step(e: Event)
      requires Valid()
      requires RouteOf(appState.mode, e) == ToEditor ==> editor.gapBuffer != null
      modifies this`effects, appState, editor.Storage()
      ensures Valid()
      ensures editor.gapBuffer == old(editor.gapBuffer) && editor.selectedIndex == old(editor.selectedIndex)
      ensures forall o :: o in editor.Storage() ==> o in old(editor.Storage()) || fresh(o)
      ensures ControlOf() == ControlStep(old(ControlOf()), e)
      ensures effects == old(effects) + EffectsOf(old(appState.mode), e)
      ensures appState.snippetList == old(appState.snippetList)
      ensures appState.searchQuery == old(appState.searchQuery)
      ensures appState.currentArea == old(appState.currentArea)
      ensures appState.selectedIndex ==
        if RouteOf(old(appState.mode), e) == ToList
        then ListSelection(e, old(appState.selectedIndex), |appState.snippetList|)
        else old(appState.selectedIndex)
      ensures RouteOf(old(appState.mode), e) == ToEditor && IsPress(e) ==>
        editor.gapBuffer.State() == EditedBy(old(editor.gapBuffer.State()), e.code)
      ensures old(editor.gapBuffer) != null && (RouteOf(old(appState.mode), e) != ToEditor || !IsPress(e)) ==>
        editor.gapBuffer.State() == old(editor.gapBuffer.State())
      ensures RouteOf(old(appState.mode), e) == ToEditor && IsPress(e) ==>
        appState.cursorCoordinates == ShownCursor(editor.gapBuffer.State(), appState.currentArea)
        && appState.shouldShowCursor
      ensures RouteOf(old(appState.mode), e) != ToEditor || !IsPress(e) ==>
        appState.cursorCoordinates == old(appState.cursorCoordinates)
        && appState.shouldShowCursor == old(appState.shouldShowCursor)
    {
      var route := RouteOf(appState.mode, e);
      if route == ToList || route == ToEditor {
        Deliver(e);
      } else {
        Dispatch(e);
      }
    }

    /**
     * `run` over the events the terminal delivers: before each event the
     * editor is brought in step with the selection (the part of drawing a
     * frame the model keeps); the loop stops when asked to exit or when the
     * events run out. The control state and the calls made are those of
     * `RunControl` and `RunEffects`.
     */
    method Run(events: seq<Event>) returns (consumed: nat)
      requires Valid()
      requires appState.searchQuery == "" && appState.selectedIndex < |appState.snippetList|
      modifies this`effects, appState, editor, editor.Storage()
      ensures consumed == Consumed(old(ControlOf()), events)
      ensures ControlOf() == RunControl(old(ControlOf()), events)
      ensures effects == old(effects) + RunEffects(old(ControlOf()), events)
      ensures Valid()
      ensures forall o :: o in editor.Storage() ==> o in old(editor.Storage()) || fresh(o)
      ensures appState.snippetList == old(appState.snippetList)
      ensures appState.currentArea == old(appState.currentArea)
      ensures appState.searchQuery == "" && appState.selectedIndex < |appState.snippetList|
      ensures appState.selectedIndex
        == RunSelection(old(ControlOf()), old(appState.selectedIndex), |appState.snippetList|, events)
    {
      consumed := 0;
      while consumed < |events| && !appState.shouldExit
        invariant consumed <= |events|
        invariant Valid()
        invariant forall o :: o in editor.Storage() ==> o in old(editor.Storage()) || fresh(o)
        invariant appState.snippetList == old(appState.snippetList)
        invariant appState.currentArea == old(appState.currentArea)
        invariant appState.searchQuery == "" && appState.selectedIndex < |appState.snippetList|
        invariant consumed + Consumed(ControlOf(), events[consumed..]) == Consumed(old(ControlOf()), events)
        invariant RunControl(ControlOf(), events[consumed..]) == RunControl(old(ControlOf()), events)
        invariant effects + RunEffects(ControlOf(), events[consumed..])
          == old(effects) + RunEffects(old(ControlOf()), events)
        invariant RunSelection(ControlOf(), appState.selectedIndex, |appState.snippetList|, events[consumed..])
          == RunSelection(old(ControlOf()), old(appState.selectedIndex), |appState.snippetList|, events)
        decreases |events| - consumed
      {
        var e := events[consumed];
        ghost var c, rest, done := ControlOf(), events[consumed..], effects;
        assert rest[0] == e && rest[1..] == events[consumed + 1..];
        RunUnfolds(c, rest, done, appState.selectedIndex, |appState.snippetList|);
        Cycle(e);
        consumed := consumed + 1;
      }
    }

    /** One turn of the loop of `run`: bring the editor in step with the selection, then take the event. */
    method Cycle(e: Event)
      requires Valid()
      requires appState.searchQuery == "" && appState.selectedIndex < |appState.snippetList|
      modifies this`effects, appState, editor, editor.Storage()
      ensures Valid()
      ensures forall o :: o in editor.Storage() ==> o in old(editor.Storage()) || fresh(o)
      ensures ControlOf() == ControlStep(old(ControlOf()), e)
      ensures effects == old(effects) + EffectsOf(old(appState.mode), e)
      ensures appState.snippetList == old(appState.snippetList)
      ensures appState.currentArea == old(appState.currentArea)
      ensures appState.searchQuery == "" && appState.selectedIndex < |appState.snippetList|
      ensures appState.selectedIndex ==
        if RouteOf(old(appState.mode), e) == ToList
        then ListSelection(e, old(appState.selectedIndex), |appState.snippetList|)
        else old(appState.selectedIndex)
      ensures editor.selectedIndex == Some(old(appState.selectedIndex)) && editor.gapBuffer != null
      ensures old(editor.selectedIndex) == Some(old(appState.selectedIndex)) ==>
        editor.gapBuffer.State() == KeyedBy(old(appState.mode), e, old(editor.gapBuffer.State()))
      ensures old(editor.selectedIndex) != Some(old(appState.selectedIndex)) ==>
        editor.gapBuffer.State()
          == KeyedBy(old(appState.mode), e, FromText(appState.snippetList[old(appState.selectedIndex)].code, 1024))
      ensures RouteOf(old(appState.mode), e) == ToEditor && IsPress(e) ==>
        appState.cursorCoordinates == ShownCursor(editor.gapBuffer.State(), appState.currentArea)
        && appState.shouldShowCursor
      ensures RouteOf(old(appState.mode), e) != ToEditor || !IsPress(e) ==>
        appState.cursorCoordinates == old(appState.cursorCoordinates)
        && appState.shouldShowCursor == old(appState.shouldShowCursor)
    {
      SelectionHasContent(appState);
      editor.Refresh(appState);
      ghost var loaded := editor.Storage();
      assert forall o :: o in loaded ==> o in old(editor.Storage()) || fresh(o);
      Step(e);
    }
  }

  /**
   * The list handler steps over the whole list, while the editor loads
   * through the filtered view. With "print" typed into the search box,
   * `j` from the top of the sample list selects "Print macro", the second
   * entry of the two-entry view; a second `j` selects a position past the
   * view, where there is no snippet, so `render` finds no content to load.
   */
  method QueryThenNextLeavesView() returns (first: Option<nat>, second: Option<nat>, content: Option<string>)
    ensures first == Some(2)
    ensures second == None && content == None
  {
    var state := new AppState.Initial(Sample());
    state.searchQuery := "print";
    FilterScenario();
    SelectNext(state);
    first := state.GetSelectedSnippetIndex();
    SelectNext(state);
    second := state.GetSelectedSnippetIndex();
    content := state.GetContent();
  }

  /** With no query, a selection inside the list always has a snippet to show. */
  lemma SelectionHasContent(state: AppState)
    requires state.searchQuery == "" && state.selectedIndex < |state.snippetList|
    ensures state.GetContent() == Some(state.snippetList[state.selectedIndex].code)
  {
    EmptyQueryKeepsAll(state.snippetList);
  }
}
