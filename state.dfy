/**
 * The application state of src/app.rs: the snippets, the mode, the focus
 * flags, the search query and the selection, with the filtered view of the
 * snippet list and the lookups that go through it.
 *
 * This is the `AppState` half of src/app.rs; the `App` half (the mode
 * machine and the event loop) is module `App`, which can import the view.
 */
module State {
  import opened Wrappers

  /** A stored snippet. */
  datatype Snippet = Snippet(language: string, code: string, title: string)

  datatype AppMode = Select | Search | Edit | Command | Popup

  /** A screen rectangle; only its origin matters to the model. */
  datatype Rect = Rect(x: nat, y: nat, width: nat, height: nat)

  // ---------------------------------------------------------------------
  // The case-insensitive title filter
  // ---------------------------------------------------------------------

  /** `to_lowercase` on one character, for ASCII letters. */
  function LowerChar(c: char): (r: char)
    ensures !('A' <= r <= 'Z')
    ensures !('A' <= c <= 'Z') ==> r == c
    ensures 'A' <= c <= 'Z' ==> r as int == c as int + 32
  {
    if 'A' <= c <= 'Z' then (c as int + 32) as char else c
  }

  /** `to_lowercase` on a string, character by character. */
  function Lower(s: string): (r: string)
    ensures |r| == |s|
    ensures forall i :: 0 <= i < |s| ==> r[i] == LowerChar(s[i])
  {
    seq(|s|, i requires 0 <= i < |s| => LowerChar(s[i]))
  }

  /** `needle` occurs in `hay` starting at offset `i`. */
  predicate OccursAt(hay: string, needle: string, i: int)
  {
    0 <= i <= |hay| - |needle| && hay[i..i + |needle|] == needle
  }

  /** `str::contains`: `needle` occurs in `hay` at some offset. */
  predicate Contains(hay: string, needle: string)
    ensures Contains(hay, needle) ==> |needle| <= |hay|
    ensures |needle| <= |hay| && hay[..|needle|] == needle ==> Contains(hay, needle)
  {
    assert |needle| <= |hay| && hay[..|needle|] == needle ==> OccursAt(hay, needle, 0);
    exists i :: 0 <= i <= |hay| - |needle| && OccursAt(hay, needle, i)
  }

  /** The filter's test: the lowercased title contains the lowercased query. */
  predicate Matches(s: Snippet, query: string)
    ensures query == "" ==> Matches(s, query)
    ensures Matches(s, query) ==> |query| <= |s.title|
  {
    EverythingContainsEmpty(Lower(s.title));
    Contains(Lower(s.title), Lower(query))
  }

  /** Lowercasing twice is lowercasing once. */
  lemma LowerIsIdempotent(s: string)
    ensures Lower(Lower(s)) == Lower(s)
  {
    assert forall i :: 0 <= i < |s| ==> Lower(Lower(s))[i] == Lower(s)[i];
  }

  /** The case of the query does not matter: it matches as its lowercased form does. */
  lemma QueryCaseIgnored(s: Snippet, query: string)
    ensures Matches(s, query) <==> Matches(s, Lower(query))
  {
    LowerIsIdempotent(query);
  }

  /** The filtered view of `list[from..]`, paired with positions in `list`. */
  function FilterFrom(list: seq<Snippet>, query: string, from: nat): (r: seq<(nat, Snippet)>)
    requires from <= |list|
    ensures forall k :: 0 <= k < |r| ==>
      from <= r[k].0 < |list| && r[k].1 == list[r[k].0] && Matches(list[r[k].0], query)
    ensures forall k, l :: 0 <= k < l < |r| ==> r[k].0 < r[l].0
    ensures forall i :: from <= i < |list| ==> (Matches(list[i], query) <==> (i, list[i]) in r)
    decreases |list| - from
  {
    if from == |list| then []
    else
      var rest := FilterFrom(list, query, from + 1);
      if Matches(list[from], query) then [(from, list[from])] + rest else rest
  }

  /**
   * `filtered_snippets`: the snippets whose title matches the query, each
   * with its position in the list, in list order; every matching snippet is
   * there.
   */
  function Filtered(list: seq<Snippet>, query: string): (r: seq<(nat, Snippet)>)
    ensures forall k :: 0 <= k < |r| ==>
      r[k].0 < |list| && r[k].1 == list[r[k].0] && Matches(list[r[k].0], query)
    ensures forall k, l :: 0 <= k < l < |r| ==> r[k].0 < r[l].0
    ensures forall i :: 0 <= i < |list| ==> (Matches(list[i], query) <==> (i, list[i]) in r)
  {
    FilterFrom(list, query, 0)
  }

  /** Every title contains the empty query. */
  lemma EverythingContainsEmpty(hay: string)
    ensures Contains(hay, Lower(""))
  {
    assert OccursAt(hay, Lower(""), 0);
  }

  /** With an empty query the filtered view is the whole list, numbered in order. */
  lemma EmptyQueryKeepsAll(list: seq<Snippet>)
    ensures Filtered(list, "") == seq(|list|, i requires 0 <= i < |list| => (i, list[i]))
  {
    EmptyQueryKeepsAllFrom(list, 0);
  }

  lemma {:induction false} EmptyQueryKeepsAllFrom(list: seq<Snippet>, from: nat)
    requires from <= |list|
    ensures |FilterFrom(list, "", from)| == |list| - from
    ensures forall k :: 0 <= k < |list| - from ==> FilterFrom(list, "", from)[k] == (from + k, list[from + k])
    decreases |list| - from
  {
    if from < |list| {
      EverythingContainsEmpty(Lower(list[from].title));
      assert Matches(list[from], "");
      EmptyQueryKeepsAllFrom(list, from + 1);
      NumberedFrom(list, from, FilterFrom(list, "", from + 1));
    }
  }

  /** Putting `from` in front of the positions after it numbers the list from `from`. */
  lemma NumberedFrom(list: seq<Snippet>, from: nat, rest: seq<(nat, Snippet)>)
    requires from < |list| && |rest| == |list| - (from + 1)
    requires forall k :: 0 <= k < |rest| ==> rest[k] == (from + 1 + k, list[from + 1 + k])
    ensures forall k :: 0 <= k < |list| - from ==> ([(from, list[from])] + rest)[k] == (from + k, list[from + k])
  {
    var all := [(from, list[from])] + rest;
    forall k | 0 < k < |list| - from
      ensures all[k] == (from + k, list[from + k])
    {
      assert all[k] == rest[k - 1];
    }
  }

  // ---------------------------------------------------------------------
  // The state
  // ---------------------------------------------------------------------

  class AppState {
    var snippetList: seq<Snippet>
    var selectedIndex: nat
    var mode: AppMode
    var shouldExit: bool
    var currentArea: Rect
    var focusedEditor: bool
    var focusedSearch: bool
    var searchQuery: string
    /** Where the editor last put the terminal cursor; `AppState` in src/app.rs has no such field. */
    var cursorCoordinates: (nat, nat)
    /** Whether the editor asked for the cursor to be shown; `AppState` in src/app.rs has no such field either. */
    var shouldShowCursor: bool

    /** The state `App::new` builds around the loaded snippets. */
    constructor Initial(snippets: seq<Snippet>)
      ensures snippetList == snippets && searchQuery == "" && selectedIndex == 0
      ensures mode == Command && !shouldExit && !focusedEditor && !focusedSearch
      ensures currentArea == Rect(0, 0, 0, 0)
    {
      snippetList := snippets;
      searchQuery := "";
      selectedIndex := 0;
      mode := Command;
      shouldExit := false;
      currentArea := Rect(0, 0, 0, 0);
      focusedEditor := false;
      focusedSearch := false;
      cursorCoordinates := (0, 0);
      shouldShowCursor := false;
    }

    /**
     * `filtered_snippets`: the view `Filtered` gives of the state's list by
     * its query; while the search box is empty that is the whole list.
     */
    function FilteredSnippets(): (r: seq<(nat, Snippet)>)
      reads this
      ensures r == Filtered(snippetList, searchQuery)
      ensures searchQuery == "" ==>
        |r| == |snippetList| && forall i :: 0 <= i < |r| ==> r[i] == (i, snippetList[i])
    {
      EmptyQueryKeepsAll(snippetList);
      Filtered(snippetList, searchQuery)
    }

    /**
     * `get_selected_snippet_index`: the list position of the selected entry
     * of the filtered view, if the selection is inside it.
     */
    function GetSelectedSnippetIndex(): (r: Option<nat>)
      reads this
      ensures r.Some? <==> selectedIndex < |FilteredSnippets()|
      ensures r.Some? ==> r.value == FilteredSnippets()[selectedIndex].0
      ensures r.Some? ==> r.value < |snippetList| && Matches(snippetList[r.value], searchQuery)
    {
      var view := FilteredSnippets();
      if selectedIndex < |view| then Some(view[selectedIndex].0) else None
    }

    /** `get_content`: the code of the selected snippet, absent exactly when nothing is selected. */
    function GetContent(): (r: Option<string>)
      reads this
      ensures r.None? <==> GetSelectedSnippetIndex().None?
      ensures r.Some? ==> r.value == snippetList[GetSelectedSnippetIndex().value].code
    {
      match GetSelectedSnippetIndex()
      case Some(i) => Some(snippetList[i].code)
      case None => None
    }

    /** `get_current_snippet`: the selected snippet, absent exactly when nothing is selected. */
    function GetCurrentSnippet(): (r: Option<Snippet>)
      reads this
      ensures r.None? <==> GetSelectedSnippetIndex().None?
      ensures r.Some? ==> r.value == snippetList[GetSelectedSnippetIndex().value]
      ensures r.Some? ==> Matches(r.value, searchQuery)
    {
      match GetSelectedSnippetIndex()
      case Some(i) => Some(snippetList[i])
      case None => None
    }

    method FocusEditor()
      modifies this`focusedEditor
      ensures focusedEditor
    {
      focusedEditor := true;
    }

    method FocusSearch()
      modifies this`focusedSearch
      ensures focusedSearch
    {
      focusedSearch := true;
    }

    method BlurSearch()
      modifies this`focusedSearch
      ensures !focusedSearch
    {
      focusedSearch := false;
    }

    method BlurEditor()
      modifies this`focusedEditor
      ensures !focusedEditor
    {
      focusedEditor := false;
    }

    /** `blur`: neither input keeps the focus. */
    method Blur()
      modifies this`focusedSearch, this`focusedEditor
      ensures !focusedSearch && !focusedEditor
    {
      BlurSearch();
      BlurEditor();
    }
  }

  /** Three snippets, two of whose titles contain "print" in some case. */
  function Sample(): seq<Snippet>
  {
    [Snippet("rs", "", "Print function"), Snippet("lisp", "", "Loop macro"), Snippet("rs", "", "Print macro")]
  }

  /** "Print function" and "Print macro" contain "print" once lowercased. */
  lemma PrintTitlesMatch()
    ensures Matches(Sample()[0], "print") && Matches(Sample()[2], "print")
  {
    var q := Lower("print");
    assert q == "print";
    assert OccursAt(Lower(Sample()[0].title), q, 0);
    assert OccursAt(Lower(Sample()[2].title), q, 0);
  }

  /** "Loop macro" has no "pr" anywhere, so it does not contain "print". */
  lemma LoopTitleDoesNotMatch()
    ensures !Matches(Sample()[1], "print")
  {
    var q := Lower("print");
    var t := Lower(Sample()[1].title);
    assert q == "print";
    assert t == "loop macro";
    forall i | 0 <= i <= |t| - |q|
      ensures !OccursAt(t, q, i)
    {
      assert t[i] != 'p' || t[i + 1] != 'r';
    }
  }

  /** Filtering the sample by "print" keeps the first and the third, in order. */
  lemma FilterScenario()
    ensures |Filtered(Sample(), "print")| == 2
    ensures Filtered(Sample(), "print")[0].0 == 0 && Filtered(Sample(), "print")[1].0 == 2
  {
    var list := Sample();
    PrintTitlesMatch();
    LoopTitleDoesNotMatch();
    assert FilterFrom(list, "print", 3) == [];
    assert FilterFrom(list, "print", 2) == [(2, list[2])];
    assert FilterFrom(list, "print", 1) == [(2, list[2])];
    assert FilterFrom(list, "print", 0) == [(0, list[0]), (2, list[2])];
  }
}
