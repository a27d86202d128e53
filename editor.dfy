/**
 * The gap buffer of the snippet editor (src/editor.rs).
 *
 * The buffer is a vector of characters with one contiguous run of unused,
 * NUL-filled slots, the gap, between `gapStart` and `gapEnd` (both
 * inclusive). The text is everything outside the gap, in order; the cursor
 * sits at `gapStart`.
 *
 * The first half of the module describes the buffer as a value (`Gap`) and
 * each operation as a function on it; the second half is the `GapBuffer`
 * class, which performs the same operations in place on an array and is
 * proved to agree with those functions.
 *
 * Two operations are modelled twice. `GrownAsWritten` and
 * `AsWrittenGuardAdmits` are the source's `grow` and `move_gap` guard as they
 * stand; `Grown` and `Moved` are the corrected versions that the rest of the
 * model uses.
 */
module Editor {

  /** The filler character of unused slots. */
  const NUL: char := '\0'

  /** `n` filler characters. */
  function Nuls(n: nat): (r: seq<char>)
    ensures |r| == n
    ensures forall i :: 0 <= i < n ==> r[i] == NUL
  {
    seq(n, _ => NUL)
  }

  // ---------------------------------------------------------------------
  // The buffer as a value
  // ---------------------------------------------------------------------

  /** A snapshot of a `GapBuffer`: its storage and its three fields. */
  datatype Gap = Gap(buffer: seq<char>, capacity: nat, gapStart: nat, gapEnd: nat)

  /** The gap bounds are ordered and inside the storage. */
  predicate Bounded(g: Gap)
  {
    g.gapStart <= g.gapEnd < |g.buffer|
  }

  /** The bounds are in range and every slot of the gap holds NUL. */
  predicate Gapped(g: Gap)
  {
    && Bounded(g)
    && forall i :: g.gapStart <= i <= g.gapEnd ==> g.buffer[i] == NUL
  }

  /**
   * The invariant every editing operation keeps: a NUL-filled gap of at
   * least two slots and a stored capacity of at least two. With a gap of a
   * single slot, `insert_char` fills it without growing and the next call
   * underflows `gap_end - gap_start`.
   */
  predicate WellFormed(g: Gap)
  {
    Gapped(g) && g.gapStart < g.gapEnd && g.capacity >= 2
  }

  /** The text the buffer holds: the storage with the gap cut out. */
  function Content(g: Gap): seq<char>
    requires Bounded(g)
  {
    g.buffer[..g.gapStart] + g.buffer[g.gapEnd + 1..]
  }

  /**
   * The text the application shows: the storage with every NUL dropped and
   * every other character kept, as often as it occurs.
   */
  function WithoutNuls(s: seq<char>): (r: seq<char>)
    ensures |r| <= |s|
    ensures NUL !in r
    ensures forall c :: c != NUL ==> multiset(r)[c] == multiset(s)[c]
  {
    if s == [] then []
    else
      assert s == [s[0]] + s[1..];
      (if s[0] == NUL then [] else [s[0]]) + WithoutNuls(s[1..])
  }

  // ---------------------------------------------------------------------
  // A reference model: a plain text with a cursor
  // ---------------------------------------------------------------------

  /** A document as the user sees it: a text and a cursor position in it. */
  datatype Doc = Doc(text: seq<char>, cursor: nat)

  predicate DocValid(d: Doc)
  {
    d.cursor <= |d.text|
  }

  /** The document a buffer stands for: its content, with the cursor at the gap. */
  function Abs(g: Gap): (d: Doc)
    requires Bounded(g)
    ensures DocValid(d)
  {
    Doc(Content(g), g.gapStart)
  }

  /** Typing `c`: it goes in before the cursor, which moves past it. */
  function DocInsert(d: Doc, c: char): (r: Doc)
    requires DocValid(d)
    ensures DocValid(r)
  {
    Doc(d.text[..d.cursor] + [c] + d.text[d.cursor..], d.cursor + 1)
  }

  /** Backspace: the character before the cursor goes, if there is one. */
  function DocDelete(d: Doc): (r: Doc)
    requires DocValid(d)
    ensures DocValid(r)
  {
    if d.cursor == 0 then d
    else Doc(d.text[..d.cursor - 1] + d.text[d.cursor..], d.cursor - 1)
  }

  /** Placing the cursor at `i`, ignored when `i` is past the end of the text. */
  function DocMoveTo(d: Doc, i: nat): (r: Doc)
    requires DocValid(d)
    ensures DocValid(r)
  {
    if i <= |d.text| then Doc(d.text, i) else d
  }

  // ---------------------------------------------------------------------
  // The operations on values
  // ---------------------------------------------------------------------

  /**
   * `from_str`: the characters of `text` followed by `capacity` NULs, with
   * the gap over the NULs. The source computes `length + capacity - 1`, so
   * both may not be zero.
   */
  function FromText(text: string, capacity: nat): (g: Gap)
    requires |text| + capacity >= 1
    ensures g.buffer == text + Nuls(capacity) && g.capacity == capacity
    ensures g.gapStart == |text| && g.gapEnd + 1 == |text| + capacity
    ensures capacity >= 1 ==> Gapped(g) && Abs(g) == Doc(text, |text|)
    ensures WellFormed(g) <==> capacity >= 2
  {
    var g := Gap(text + Nuls(capacity), capacity, |text|, |text| + capacity - 1);
    assert g.buffer[..g.gapStart] == text;
    g
  }

  /**
   * One iteration of the loop of `move_gap_left`: both bounds step left and
   * the character before the gap is copied to the slot after it.
   */
  function StepLeft(g: Gap): Gap
    requires Bounded(g) && 0 < g.gapStart
  {
    var s := g.gapStart - 1;
    var e := g.gapEnd - 1;
    g.(buffer := g.buffer[e + 1 := g.buffer[s]][s := NUL], gapStart := s, gapEnd := e)
  }

  lemma StepLeftKeepsContent(g: Gap)
    requires Gapped(g) && 0 < g.gapStart
    ensures Gapped(StepLeft(g)) && Content(StepLeft(g)) == Content(g)
  {
    var r := StepLeft(g);
    var s := g.gapStart - 1;
    assert r.buffer[..s] == g.buffer[..s];
    assert r.buffer[r.gapEnd + 1..] == [g.buffer[s]] + g.buffer[g.gapEnd + 1..];
    assert g.buffer[..g.gapStart] == g.buffer[..s] + [g.buffer[s]];
  }

  /**
   * `move_gap_left(index)`: the gap moves left until it starts at `index`
   * (nothing happens when it already starts at or before `index`).
   */
  function MovedLeft(g: Gap, index: nat): (r: Gap)
    requires Bounded(g)
    ensures Bounded(r)
    ensures r.gapStart == if index < g.gapStart then index else g.gapStart
    ensures r.gapEnd - r.gapStart == g.gapEnd - g.gapStart
    ensures |r.buffer| == |g.buffer| && r.capacity == g.capacity
    ensures Gapped(g) ==> Gapped(r) && Content(r) == Content(g)
    decreases g.gapStart
  {
    if g.gapStart > index then
      (if Gapped(g) then StepLeftKeepsContent(g); MovedLeft(StepLeft(g), index)
       else MovedLeft(StepLeft(g), index))
    else g
  }

  /**
   * One iteration of the loop of `move_gap_right`: both bounds step right
   * and the character after the gap is copied to the slot before it.
   */
  function StepRight(g: Gap): Gap
    requires g.gapStart <= g.gapEnd && g.gapEnd + 1 < |g.buffer|
  {
    var s := g.gapStart + 1;
    var e := g.gapEnd + 1;
    g.(buffer := g.buffer[s - 1 := g.buffer[e]][e := NUL], gapStart := s, gapEnd := e)
  }

  lemma StepRightKeepsContent(g: Gap)
    requires Gapped(g) && g.gapEnd + 1 < |g.buffer|
    ensures Gapped(StepRight(g)) && Content(StepRight(g)) == Content(g)
  {
    var r := StepRight(g);
    var e := g.gapEnd + 1;
    assert r.buffer[..r.gapStart] == g.buffer[..g.gapStart] + [g.buffer[e]];
    assert r.buffer[e + 1..] == g.buffer[e + 1..];
    assert g.buffer[e..] == [g.buffer[e]] + g.buffer[e + 1..];
  }

  /**
   * `move_gap_right(index)`: the gap moves right until it starts at `index`.
   * The loop writes to the slot the gap end reaches, so the source demands
   * `index + (gap_end - gap_start) < buffer.len()`.
   */
  function MovedRight(g: Gap, index: nat): (r: Gap)
    requires Bounded(g)
    requires index + (g.gapEnd - g.gapStart) < |g.buffer|
    ensures Bounded(r)
    ensures r.gapStart == if index > g.gapStart then index else g.gapStart
    ensures r.gapEnd - r.gapStart == g.gapEnd - g.gapStart
    ensures |r.buffer| == |g.buffer| && r.capacity == g.capacity
    ensures Gapped(g) ==> Gapped(r) && Content(r) == Content(g)
    decreases index - g.gapStart
  {
    if g.gapStart < index then
      (if Gapped(g) then StepRightKeepsContent(g); MovedRight(StepRight(g), index)
       else MovedRight(StepRight(g), index))
    else g
  }

  /** The storage `grow` builds: the text before the gap, `room` NULs, the text after the gap. */
  function Reallocated(g: Gap, room: nat): (s: seq<char>)
    requires Bounded(g)
    ensures |s| == |g.buffer| + room - (g.gapEnd - g.gapStart + 1)
  {
    g.buffer[..g.gapStart] + Nuls(room) + g.buffer[g.gapEnd + 1..]
  }

  lemma ReallocatedParts(g: Gap, room: nat)
    requires Bounded(g)
    ensures Reallocated(g, room)[..g.gapStart] == g.buffer[..g.gapStart]
    ensures Reallocated(g, room)[g.gapStart + room..] == g.buffer[g.gapEnd + 1..]
    ensures forall i :: g.gapStart <= i < g.gapStart + room ==> Reallocated(g, room)[i] == NUL
  {
    var s := Reallocated(g, room);
    assert s == (g.buffer[..g.gapStart] + Nuls(room)) + g.buffer[g.gapEnd + 1..];
  }

  /** A sequence with the three parts of `Reallocated(g, room)` is that storage. */
  lemma ReallocatedIs(g: Gap, room: nat, t: seq<char>)
    requires Bounded(g)
    requires |t| == g.gapStart + room + (|g.buffer| - (g.gapEnd + 1))
    requires t[..g.gapStart] == g.buffer[..g.gapStart]
    requires t[g.gapStart..g.gapStart + room] == Nuls(room)
    requires t[g.gapStart + room..] == g.buffer[g.gapEnd + 1..]
    ensures t == Reallocated(g, room)
  {
    assert t == t[..g.gapStart] + t[g.gapStart..g.gapStart + room] + t[g.gapStart + room..];
  }

  /** Storage with the three parts `grow` copies is what `Grown` holds. */
  lemma GrowsInto(g: Gap, t: seq<char>)
    requires Bounded(g) && g.capacity >= 1
    requires |t| == g.gapStart + 2 * g.capacity + (|g.buffer| - (g.gapEnd + 1))
    requires t[..g.gapStart] == g.buffer[..g.gapStart]
    requires t[g.gapStart..g.gapStart + 2 * g.capacity] == Nuls(2 * g.capacity)
    requires t[g.gapStart + 2 * g.capacity..] == g.buffer[g.gapEnd + 1..]
    ensures Grown(g) == Gap(t, 2 * g.capacity, g.gapStart, g.gapStart + 2 * g.capacity - 1)
  {
    ReallocatedIs(g, 2 * g.capacity, t);
  }

  /**
   * `grow` as written. The new gap is the `2 * capacity` NULs in
   * `[gapStart, gapStart + 2 * capacity)`, but `gap_end` is set to the
   * length of the vector after they were pushed: one past the last NUL, on
   * the first character after the gap or past the end of the storage. The
   * stored capacity is not updated, so every growth adds twice the initial
   * capacity.
   */
  function GrownAsWritten(g: Gap): (r: Gap)
    requires Bounded(g)
    ensures r.gapStart == g.gapStart && r.capacity == g.capacity
    ensures |r.buffer| > |g.buffer| <==> 2 * g.capacity > g.gapEnd - g.gapStart + 1
    ensures r.gapStart <= r.gapEnd <= |r.buffer|
    ensures r.gapEnd == |r.buffer| <==> g.gapEnd + 1 == |g.buffer|
    ensures forall i :: r.gapStart <= i < r.gapEnd ==> r.buffer[i] == NUL
    ensures r.buffer[..r.gapStart] + r.buffer[r.gapEnd..] == Content(g)
    ensures r.gapEnd < |r.buffer| ==> r.buffer[r.gapEnd] == g.buffer[g.gapEnd + 1]
  {
    ReallocatedParts(g, 2 * g.capacity);
    var r := g.(buffer := Reallocated(g, 2 * g.capacity), gapEnd := g.gapStart + 2 * g.capacity);
    assert r.buffer[r.gapEnd..] == g.buffer[g.gapEnd + 1..];
    r
  }

  /**
   * `grow` corrected: the same storage, with `gapEnd` on the last of the new
   * NULs and the stored capacity doubled, so that the next growth doubles
   * again.
   */
  function Grown(g: Gap): (r: Gap)
    requires Bounded(g) && g.capacity >= 1
    ensures Gapped(r) && Content(r) == Content(g)
    ensures r.gapStart == g.gapStart && r.capacity == 2 * g.capacity
    ensures r.gapEnd - r.gapStart + 1 == r.capacity
    ensures |r.buffer| > |g.buffer| <==> 2 * g.capacity > g.gapEnd - g.gapStart + 1
    ensures WellFormed(g) ==> WellFormed(r)
  {
    ReallocatedParts(g, 2 * g.capacity);
    g.(buffer := Reallocated(g, 2 * g.capacity),
       capacity := 2 * g.capacity,
       gapEnd := g.gapStart + 2 * g.capacity - 1)
  }

  /**
   * `insert_char(c)`: when the gap is down to two slots the buffer grows
   * first; then `c` takes the first gap slot and the gap start moves past it.
   * The buffer changes size exactly when it grew.
   */
  function Inserted(g: Gap, c: char): (r: Gap)
    requires WellFormed(g)
    ensures WellFormed(r)
    ensures Abs(r) == DocInsert(Abs(g), c)
    ensures |r.buffer| != |g.buffer| <==> g.gapEnd - g.gapStart == 1
    ensures r.capacity == if g.gapEnd - g.gapStart == 1 then 2 * g.capacity else g.capacity
  {
    var h := if g.gapEnd - g.gapStart == 1 then Grown(g) else g;
    var r := h.(buffer := h.buffer[h.gapStart := c], gapStart := h.gapStart + 1);
    assert r.buffer[..r.gapStart] == h.buffer[..h.gapStart] + [c];
    assert r.buffer[r.gapEnd + 1..] == h.buffer[h.gapEnd + 1..];
    assert Content(h)[..h.gapStart] == h.buffer[..h.gapStart];
    assert Content(h)[h.gapStart..] == h.buffer[h.gapEnd + 1..];
    r
  }

  /**
   * `delete_char`: nothing at the start of the text; otherwise the slot
   * before the gap is cleared and joins it. No other slot changes.
   */
  function Deleted(g: Gap): (r: Gap)
    requires g.gapStart <= |g.buffer|
    ensures g.gapStart == 0 ==> r == g
    ensures |r.buffer| == |g.buffer| && r.gapEnd == g.gapEnd && r.capacity == g.capacity
    ensures g.gapStart > 0 ==> r.gapStart == g.gapStart - 1 && r.buffer[r.gapStart] == NUL
    ensures forall i :: 0 <= i < |g.buffer| && i != r.gapStart ==> r.buffer[i] == g.buffer[i]
    ensures Gapped(g) ==> Gapped(r) && Abs(r) == DocDelete(Abs(g))
    ensures WellFormed(g) ==> WellFormed(r)
  {
    if g.gapStart == 0 then g
    else
      var r := g.(buffer := g.buffer[g.gapStart - 1 := NUL], gapStart := g.gapStart - 1);
      assert Bounded(g) ==> r.buffer[..r.gapStart] == g.buffer[..r.gapStart];
      assert Bounded(g) ==> r.buffer[r.gapEnd + 1..] == g.buffer[g.gapEnd + 1..];
      assert Bounded(g) ==> Content(g)[..r.gapStart] == g.buffer[..r.gapStart];
      assert Bounded(g) ==> Content(g)[g.gapStart..] == g.buffer[g.gapEnd + 1..];
      r
  }

  /**
   * The guard of `move_gap` as written: it turns an index away only when
   * `index + (gap_end - gap_start)` exceeds the buffer length.
   */
  predicate AsWrittenGuardAdmits(g: Gap, index: nat)
    ensures index + (g.gapEnd - g.gapStart) < |g.buffer| ==> AsWrittenGuardAdmits(g, index)
    ensures AsWrittenGuardAdmits(g, index) && index + (g.gapEnd - g.gapStart) >= |g.buffer| ==>
      index + (g.gapEnd - g.gapStart) == |g.buffer|
  {
    !(index + (g.gapEnd - g.gapStart) > |g.buffer|)
  }

  /**
   * The off-by-one: with the cursor at the end of the text, the Right key
   * asks for `gap_start + 1`, which the written guard admits, although
   * `move_gap_right` would then drive the gap end to the buffer length and
   * index out of bounds.
   */
  lemma RightAtEndPassesWrittenGuard(g: Gap)
    requires Gapped(g) && g.gapStart == |Content(g)|
    ensures AsWrittenGuardAdmits(g, g.gapStart + 1)
    ensures g.gapEnd + 1 == |g.buffer|
    ensures !(g.gapStart + 1 + (g.gapEnd - g.gapStart) < |g.buffer|)
  {
  }

  /**
   * `move_gap(index)` with the guard corrected to reject
   * `index + (gap_end - gap_start) >= buffer.len()`: that is exactly an index
   * past the end of the text, so every index the guard lets through is a
   * cursor position and the cursor lands on it.
   */
  function Moved(g: Gap, index: nat): (r: Gap)
    requires Bounded(g)
    ensures Bounded(r)
    ensures index + (g.gapEnd - g.gapStart) >= |g.buffer| || index == g.gapStart ==> r == g
    ensures index + (g.gapEnd - g.gapStart) < |g.buffer| ==> r.gapStart == index
    ensures r.gapEnd - r.gapStart == g.gapEnd - g.gapStart
    ensures |r.buffer| == |g.buffer| && r.capacity == g.capacity
    ensures Gapped(g) ==> Gapped(r) && Abs(r) == DocMoveTo(Abs(g), index)
    ensures WellFormed(g) ==> WellFormed(r)
  {
    var gapSize := g.gapEnd - g.gapStart;
    if index + gapSize >= |g.buffer| then g
    else if index == g.gapStart then g
    else if index < g.gapStart then MovedLeft(g, index)
    else MovedRight(g, index)
  }

  /**
   * A well-laid-out buffer is determined by its content and its gap: the
   * text before the cursor, the NULs of the gap, the text after the cursor.
   */
  lemma Layout(g: Gap)
    requires Gapped(g)
    ensures g.buffer == Content(g)[..g.gapStart] + Nuls(g.gapEnd - g.gapStart + 1) + Content(g)[g.gapStart..]
  {
    var gap := g.buffer[g.gapStart..g.gapEnd + 1];
    assert gap == Nuls(g.gapEnd - g.gapStart + 1);
    assert Content(g)[..g.gapStart] == g.buffer[..g.gapStart];
    assert Content(g)[g.gapStart..] == g.buffer[g.gapEnd + 1..];
    assert g.buffer == g.buffer[..g.gapStart] + gap + g.buffer[g.gapEnd + 1..];
  }

  // ---------------------------------------------------------------------
  // What the application displays
  // ---------------------------------------------------------------------

  lemma {:induction false} WithoutNulsConcat(a: seq<char>, b: seq<char>)
    ensures WithoutNuls(a + b) == WithoutNuls(a) + WithoutNuls(b)
  {
    if a == [] {
      assert a + b == b;
    } else {
      assert (a + b)[1..] == a[1..] + b;
      WithoutNulsConcat(a[1..], b);
    }
  }

  /** Dropping the NULs leaves no NUL, and changes nothing in a text without NULs. */
  lemma {:induction false} WithoutNulsFilters(s: seq<char>)
    ensures NUL !in WithoutNuls(s)
    ensures NUL !in s ==> WithoutNuls(s) == s
  {
    if s != [] {
      WithoutNulsFilters(s[1..]);
      assert s == [s[0]] + s[1..];
    }
  }

  lemma {:induction false} WithoutNulsOfNuls(s: seq<char>)
    requires forall i :: 0 <= i < |s| ==> s[i] == NUL
    ensures WithoutNuls(s) == []
  {
    if s != [] {
      WithoutNulsOfNuls(s[1..]);
    }
  }

  /** A run of NULs between two texts disappears from the displayed text. */
  lemma WithoutNulsDropsGap(pre: seq<char>, gap: seq<char>, post: seq<char>)
    requires forall i :: 0 <= i < |gap| ==> gap[i] == NUL
    ensures WithoutNuls(pre + gap + post) == WithoutNuls(pre + post)
  {
    calc {
      WithoutNuls(pre + gap + post);
      { WithoutNulsConcat(pre + gap, post); }
      WithoutNuls(pre + gap) + WithoutNuls(post);
      { WithoutNulsConcat(pre, gap); WithoutNulsOfNuls(gap); }
      WithoutNuls(pre) + WithoutNuls(post);
      { WithoutNulsConcat(pre, post); }
      WithoutNuls(pre + post);
    }
  }

  /**
   * Dropping the NULs of the storage gives the content with its own NULs
   * dropped; when the content holds no NUL it gives the content itself.
   */
  lemma DisplayedTextIsContent(g: Gap)
    requires Gapped(g)
    ensures WithoutNuls(g.buffer) == WithoutNuls(Content(g))
    ensures NUL !in Content(g) ==> WithoutNuls(g.buffer) == Content(g)
  {
    var pre, gap, post := g.buffer[..g.gapStart], g.buffer[g.gapStart..g.gapEnd + 1], g.buffer[g.gapEnd + 1..];
    assert g.buffer == pre + gap + post;
    WithoutNulsDropsGap(pre, gap, post);
    WithoutNulsFilters(Content(g));
  }

  /** Both versions of `grow` keep the displayed text. */
  lemma GrowKeepsDisplayedText(g: Gap)
    requires Gapped(g)
    ensures WithoutNuls(GrownAsWritten(g).buffer) == WithoutNuls(g.buffer)
    ensures g.capacity >= 1 ==> WithoutNuls(Grown(g).buffer) == WithoutNuls(g.buffer)
  {
    var pre, post := g.buffer[..g.gapStart], g.buffer[g.gapEnd + 1..];
    WithoutNulsDropsGap(pre, Nuls(2 * g.capacity), post);
    DisplayedTextIsContent(g);
  }

  /**
   * The defect of `grow` in action: after the written `grow`, one step of
   * `move_gap_left` copies the character before the gap onto the slot
   * `gap_end + 1`, which is the first character after the gap, so that
   * character is lost; and when the gap was at the end of the storage that
   * slot does not exist.
   */
  lemma LeftAfterWrittenGrowOverwrites(g: Gap)
    requires Gapped(g) && 0 < g.gapStart && g.capacity >= 1
    ensures var h := GrownAsWritten(g);
      && (g.gapEnd + 1 == |g.buffer| ==> !(h.gapEnd < |h.buffer|))
      && (g.gapEnd + 1 < |g.buffer| ==>
            Bounded(h) && StepLeft(h).buffer[h.gapEnd] == g.buffer[g.gapStart - 1]
            && h.buffer[h.gapEnd] == g.buffer[g.gapEnd + 1])
  {
  }

  /** "Hello" with the cursor after "H" and a gap of three slots, as in the unit test of `grow`. */
  function HelloAfterH(): Gap
  {
    Gap(['H', NUL, NUL, NUL, 'e', 'l', 'l', 'o'], 3, 1, 3)
  }

  lemma HelloAfterHShowsHello()
    ensures Gapped(HelloAfterH()) && Content(HelloAfterH()) == "Hello"
    ensures WithoutNuls(HelloAfterH().buffer) == "Hello"
  {
    var g := HelloAfterH();
    assert Content(g) == "Hello";
    DisplayedTextIsContent(g);
    WithoutNulsFilters("Hello");
  }

  /** `grow` as written on that buffer: six NULs, with `gapEnd` landing on the 'e'. */
  lemma WrittenGrowOfHello()
    ensures GrownAsWritten(HelloAfterH()) == Gap(['H', NUL, NUL, NUL, NUL, NUL, NUL, 'e', 'l', 'l', 'o'], 3, 1, 7)
  {
    var g := HelloAfterH();
    assert Reallocated(g, 6) == ['H'] + Nuls(6) + ['e', 'l', 'l', 'o'];
  }

  /** What the storage shows once the 'e' has been overwritten. */
  lemma OverwrittenShowsHllo()
    ensures WithoutNuls([NUL, NUL, NUL, NUL, NUL, NUL, NUL, 'H', 'l', 'l', 'o']) == "Hllo"
  {
    var hllo: seq<char> := ['H', 'l', 'l', 'o'];
    assert [NUL, NUL, NUL, NUL, NUL, NUL, NUL, 'H', 'l', 'l', 'o'] == [] + Nuls(7) + hllo;
    WithoutNulsDropsGap([], Nuls(7), hllo);
    assert [] + hllo == hllo == "Hllo";
    WithoutNulsFilters(hllo);
  }

  /** The concrete case: that buffer, grown as written and moved left one step, shows "Hllo". */
  lemma WrittenGrowLosesACharacter()
    ensures WithoutNuls(StepLeft(GrownAsWritten(HelloAfterH())).buffer) == "Hllo"
  {
    WrittenGrowOfHello();
    var h := Gap(['H', NUL, NUL, NUL, NUL, NUL, NUL, 'e', 'l', 'l', 'o'], 3, 1, 7);
    assert StepLeft(h).buffer == [NUL, NUL, NUL, NUL, NUL, NUL, NUL, 'H', 'l', 'l', 'o'];
    OverwrittenShowsHllo();
  }

  /** The same case with the corrected `grow`: the text survives any move of the gap. */
  lemma CorrectedGrowKeepsTheText(index: nat)
    ensures WithoutNuls(Moved(Grown(HelloAfterH()), index).buffer) == "Hello"
  {
    HelloAfterHShowsHello();
    var k := Moved(Grown(HelloAfterH()), index);
    WithoutNulsFilters("Hello");
    DisplayedTextIsContent(k);
  }

  /** With the corrected `grow` every growth doubles the room of the previous one. */
  lemma GrowthDoubles(g: Gap)
    requires Bounded(g) && g.capacity >= 1
    ensures var h := Grown(g); var k := Grown(h);
      k.gapEnd - k.gapStart + 1 == 2 * (h.gapEnd - h.gapStart + 1)
  {
  }

  /** The written `grow` adds the same room every time: twice the capacity given to `from_str`. */
  lemma WrittenGrowthIsConstant(g: Gap)
    requires Bounded(g)
    ensures GrownAsWritten(g).capacity == g.capacity
    ensures GrownAsWritten(g).gapEnd - GrownAsWritten(g).gapStart == 2 * g.capacity
  {
  }

  /**
   * Why `from_str` needs a capacity of at least two: with one spare slot the
   * first `insert_char` fills the gap without growing, leaving
   * `gap_start > gap_end`, and the next `insert_char` underflows.
   */
  lemma CapacityOneExhaustsTheGap(c: char)
    ensures var g := FromText("", 1);
      && g.gapEnd - g.gapStart == 0
      && g.buffer[g.gapStart := c] == [c]
      && g.gapStart + 1 > g.gapEnd
  {
  }

  // ---------------------------------------------------------------------
  // The buffer in place
  // ---------------------------------------------------------------------

  /** The gap buffer of src/editor.rs, mutated in place. */
  class GapBuffer {
    var buffer: array<char>
    var capacity: nat
    var gapStart: nat
    var gapEnd: nat

    /** The current value of the buffer. */
    function State(): Gap
      reads this, buffer
    {
      Gap(buffer[..], capacity, gapStart, gapEnd)
    }

    predicate Valid()
      reads this, buffer
    {
      WellFormed(State())
    }

    /** `from_str`. */
    constructor FromStr(text: string, capacity: nat)
      requires |text| + capacity >= 1
      ensures fresh(buffer)
      ensures State() == FromText(text, capacity)
    {
      var length := |text|;
      buffer := new char[length + capacity](i requires 0 <= i < length + capacity =>
        if i < length then text[i] else NUL);
      this.capacity := capacity;
      gapStart := length;
      gapEnd := length + capacity - 1;
      new;
      assert buffer[..] == text + Nuls(capacity);
    }

    /** `move_gap_left`. */
    method MoveGapLeft(index: nat)
      requires gapStart <= gapEnd < buffer.Length
      modifies this`gapStart, this`gapEnd, buffer
      ensures State() == MovedLeft(old(State()), index)
    {
      while gapStart > index
        invariant gapStart <= gapEnd < buffer.Length
        invariant MovedLeft(State(), index) == MovedLeft(old(State()), index)
        decreases gapStart
      {
        ghost var before := State();
        ShiftLeft();
        assert MovedLeft(before, index) == MovedLeft(State(), index);
      }
    }

    /** One iteration of `move_gap_left`'s loop. */
    method ShiftLeft()
      requires 0 < gapStart <= gapEnd < buffer.Length
      modifies this`gapStart, this`gapEnd, buffer
      ensures State() == StepLeft(old(State()))
    {
      gapStart := gapStart - 1;
      gapEnd := gapEnd - 1;
      buffer[gapEnd + 1] := buffer[gapStart];
      buffer[gapStart] := NUL;
    }

    /** `move_gap_right`. */
    method MoveGapRight(index: nat)
      requires gapStart <= gapEnd < buffer.Length
      requires index + (gapEnd - gapStart) < buffer.Length
      modifies this`gapStart, this`gapEnd, buffer
      ensures State() == MovedRight(old(State()), index)
    {
      while gapStart < index
        invariant gapStart <= gapEnd < buffer.Length
        invariant index + (gapEnd - gapStart) < buffer.Length
        invariant MovedRight(State(), index) == MovedRight(old(State()), index)
        decreases index - gapStart
      {
        ghost var before := State();
        ShiftRight();
        assert MovedRight(before, index) == MovedRight(State(), index);
      }
    }

    /** One iteration of `move_gap_right`'s loop. */
    method ShiftRight()
      requires gapStart <= gapEnd && gapEnd + 1 < buffer.Length
      modifies this`gapStart, this`gapEnd, buffer
      ensures State() == StepRight(old(State()))
    {
      gapStart := gapStart + 1;
      gapEnd := gapEnd + 1;
      buffer[gapStart - 1] := buffer[gapEnd];
      buffer[gapEnd] := NUL;
    }

    /** `grow`, with the gap end corrected to the last new NUL and the capacity doubled. */
    method Grow()
      requires gapStart <= gapEnd < buffer.Length && capacity >= 1
      modifies this`buffer, this`capacity, this`gapEnd
      ensures fresh(buffer)
      ensures State() == Grown(old(State()))
    {
      ghost var before := State();
      var newCapacity := capacity * 2;
      var newBuffer := Reallocate(buffer, gapStart, gapEnd + 1, newCapacity);
      GrowsInto(before, newBuffer[..]);
      gapEnd := gapStart + newCapacity - 1;
      buffer := newBuffer;
      capacity := newCapacity;
    }

    /**
     * The new storage `grow` builds: `source[..start]`, then `room` NULs,
     * then `source[tailFrom..]`.
     */
    static method Reallocate(source: array<char>, start: nat, tailFrom: nat, room: nat) returns (t: array<char>)
      requires start <= tailFrom <= source.Length
      ensures fresh(t)
      ensures t.Length == start + room + (source.Length - tailFrom)
      ensures t[..start] == source[..start]
      ensures t[start..start + room] == Nuls(room)
      ensures t[start + room..] == source[tailFrom..]
    {
      var tail := source.Length - tailFrom;
      t := new char[start + room + tail];
      CopyInto(t, 0, source, 0, start);
      FillNuls(t, start, room);
      ghost var front := t[..start + room];
      assert front[..start] == source[..start];
      assert front[start..] == Nuls(room);
      CopyInto(t, start + room, source, tailFrom, tail);
      assert t[..start + room] == front;
      assert t[start + room..] == t[start + room..start + room + tail];
      assert source[tailFrom..] == source[tailFrom..tailFrom + tail];
    }

    /** The `push('\0')` loop of `grow`, over `count` cells of `target` from `at`: each becomes NUL. */
    static method FillNuls(target: array<char>, at: nat, count: nat)
      requires at + count <= target.Length
      modifies target
      ensures target[..at] == old(target[..at])
      ensures target[at..at + count] == Nuls(count)
      ensures target[at + count..] == old(target[at + count..])
    {
      for k := 0 to count
        invariant target[..at] == old(target[..at])
        invariant target[at..at + k] == Nuls(k)
        invariant target[at + count..] == old(target[at + count..])
      {
        target[at + k] := NUL;
      }
    }

    /** `extend_from_slice`: `count` characters of `source` from `from` go to `target` from `at`. */
    static method CopyInto(target: array<char>, at: nat, source: array<char>, from: nat, count: nat)
      requires target != source
      requires at + count <= target.Length && from + count <= source.Length
      modifies target
      ensures target[..at] == old(target[..at])
      ensures target[at..at + count] == source[from..from + count]
      ensures target[at + count..] == old(target[at + count..])
    {
      for k := 0 to count
        invariant target[..at] == old(target[..at])
        invariant target[at..at + k] == source[from..from + k]
        invariant target[at + count..] == old(target[at + count..])
      {
        target[at + k] := source[from + k];
      }
    }

    /** `insert_char`. */
    method InsertChar(c: char)
      requires Valid()
      modifies this, buffer
      ensures Valid()
      ensures buffer == old(buffer) || fresh(buffer)
      ensures State() == Inserted(old(State()), c)
    {
      var gapRange := gapEnd - gapStart;
      if gapRange == 1 {
        Grow();
      }
      buffer[gapStart] := c;
      gapStart := gapStart + 1;
    }

    /** `delete_char`. */
    method DeleteChar()
      requires gapStart <= buffer.Length
      modifies this`gapStart, buffer
      ensures State() == Deleted(old(State()))
    {
      if gapStart == 0 {
        return;
      }
      gapStart := gapStart - 1;
      buffer[gapStart] := NUL;
    }

    /** `move_gap`, with the guard corrected (see `Moved`). */
    method MoveGap(index: nat)
      requires gapStart <= gapEnd < buffer.Length
      modifies this`gapStart, this`gapEnd, buffer
      ensures State() == Moved(old(State()), index)
    {
      var gapSize := gapEnd - gapStart;
      if index + gapSize >= buffer.Length {
        return;
      }
      if index == gapStart {
        return;
      }
      if index < gapStart {
        MoveGapLeft(index);
      }
      if index > gapStart {
        MoveGapRight(index);
      }
    }
  }
}
