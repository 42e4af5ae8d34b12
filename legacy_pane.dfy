/** The earlier revision of the pane module, src/pane.rs. Its `Pane`,
    `Shape`, `Point` and `ConnectedPane` are the same code as in
    src/pane/pane.rs and are modelled once, in `Canvas` and `Connected`. Only
    its `StrPane` differs: it writes the string into row 1 of a pane one row
    high. */
module LegacyPane {
  import opened Text
  import opened Canvas
  import Panes

  /** The `put` calls of the old `StrPane::pane`, as written: character `i`
      goes to column `i` of row 1. */
  function LegacyStrPaneStrokes(line: string): seq<Stroke> {
    seq(|line|, i requires 0 <= i < |line| => Stroke(Dot(Point(i, 1)), line[i]))
  }

  /** Whether every stroke stays inside a grid of the given size, which is
      what `put` needs to avoid indexing past the surface. */
  predicate AllFit(strokes: seq<Stroke>, w: nat, h: nat) {
    forall i :: 0 <= i < |strokes| ==> Fits(strokes[i].shape, w, h)
  }

  /** The old `StrPane::pane` stays inside its pane only for the empty
      string: its pane (same size as today's, the string's length by one
      row) has no row 1, so the first character already indexes past the
      surface and `put` panics. */
  lemma LegacyStrPaneOverruns(line: string)
    ensures var size := Panes.StrPaneSize(line);
      AllFit(LegacyStrPaneStrokes(line), size.0, size.1) <==> line == []
  {
    if line != [] {
      assert !Fits(LegacyStrPaneStrokes(line)[0].shape, |line|, 1);
    }
  }

  /** A concrete input: the one-character string "a". */
  lemma LegacyStrPaneOverrunsOnA()
    ensures !Fits(LegacyStrPaneStrokes("a")[0].shape, Panes.StrPaneSize("a").0, Panes.StrPaneSize("a").1)
  {
    LegacyStrPaneOverruns("a");
  }

  /** The corrected writes, row 0 as in src/pane/pane.rs: all inside the
      pane, and painting them on the blank pane gives the string itself,
      the same surface `Panes.StrPaneRender` produces. */
  function StrPaneStrokes(line: string): seq<Stroke> {
    seq(|line|, i requires 0 <= i < |line| => Stroke(Dot(Point(i, 0)), line[i]))
  }

  lemma {:induction false} StrPaneStrokesPaint(line: string)
    ensures AllFit(StrPaneStrokes(line), |line|, 1)
    ensures PaintAll(Blank(|line|, 1), StrPaneStrokes(line)) == [line]
  {
    var strokes := StrPaneStrokes(line);
    var s := Blank(|line|, 1);
    var r := PaintAll(s, strokes);
    forall x | 0 <= x < |line| ensures r[0][x] == line[x] {
      forall j | x < j < |strokes| ensures !Covers(strokes[j].shape, x, 0) {
      }
      ShowsLast(s, |line|, 1, strokes, x, 0, x);
    }
    SameGrid(r, [line], |line|, 1);
  }
}
