/**
 * The unit tests of src/editor.rs, stated as lemmas about the value model.
 */
module EditorTests {
  import opened Editor

  const Hello: string := "Hello"

  lemma TestFromStr()
    ensures var g := FromText(Hello, 4);
      && g.gapStart == 5 && g.gapEnd == 8
      && g.buffer == ['H', 'e', 'l', 'l', 'o', NUL, NUL, NUL, NUL]
  {
  }

  lemma TestMoveGapLeft()
    ensures var g := MovedLeft(FromText(Hello, 3), 1);
      && g.gapStart == 1 && g.gapEnd == 3
      && g.buffer == ['H', NUL, NUL, NUL, 'e', 'l', 'l', 'o']
  {
    var g := MovedLeft(FromText(Hello, 3), 1);
    Layout(g);
  }

  lemma TestMoveGapRight()
    ensures var g := MovedLeft(FromText(Hello, 3), 1);
      && 5 + (g.gapEnd - g.gapStart) < |g.buffer|
      && MovedRight(g, 5).buffer == ['H', 'e', 'l', 'l', 'o', NUL, NUL, NUL]
  {
    var g := MovedRight(MovedLeft(FromText(Hello, 3), 1), 5);
    Layout(g);
  }

  lemma TestMoveGap()
    ensures var g := Moved(FromText(Hello, 3), 2);
      && g.buffer == ['H', 'e', NUL, NUL, NUL, 'l', 'l', 'o']
      && Moved(g, 7) == g
      && Moved(Moved(g, 7), 3).buffer == ['H', 'e', 'l', NUL, NUL, NUL, 'l', 'o']
  {
    var g := Moved(FromText(Hello, 3), 2);
    assert Content(g) == Hello && g.gapStart == 2 && g.gapEnd == 4;
    Layout(g);
    var h := Moved(g, 3);
    assert Content(h) == Hello && h.gapStart == 3 && h.gapEnd == 5;
    Layout(h);
  }

  lemma TestGrow()
    ensures var g := Moved(FromText(Hello, 3), 1);
      && Grown(g).buffer == ['H', NUL, NUL, NUL, NUL, NUL, NUL, 'e', 'l', 'l', 'o']
      && GrownAsWritten(g).buffer == Grown(g).buffer
  {
    var g := Moved(FromText(Hello, 3), 1);
    var h := Grown(g);
    Layout(h);
  }

  lemma TestInsertWithMove()
    ensures var g := Inserted(FromText(Hello, 2), ' ');
      && g.buffer == ['H', 'e', 'l', 'l', 'o', ' ', NUL, NUL, NUL]
      && Content(g) == "Hello "
  {
    var g := Inserted(FromText(Hello, 2), ' ');
    Layout(g);
  }

  /** Constructed from "Hello" with four spare slots, one space typed: "Hello ", six characters. */
  lemma ScenarioInsertWithoutGrowth()
    ensures var g := Inserted(FromText(Hello, 4), ' ');
      && Content(g) == "Hello " && |Content(g)| == 6
      && |g.buffer| == |FromText(Hello, 4).buffer|
  {
  }
}
