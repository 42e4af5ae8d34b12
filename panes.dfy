/** `StrPane` and `ColumnFittablePane` of src/pane/pane.rs: a one-line pane
    holding a string, and the vertical stacking of panes, which re-reads every
    pane through its text rendering and Rust's `str::lines`. */
module Panes {
  import opened Text
  import opened Canvas

  /** `StrPane::str_pane`: writes `s` into row `row`, one `put` of a point per
      character, from column 0. */
  method WriteLine(p: Pane, s: string, row: nat)
    requires p.Valid() && row < p.height && |s| <= p.width
    modifies p
    ensures p.Valid()
    ensures p.surface == old(p.surface)[row := s + old(p.surface)[row][|s|..]]
  {
    ghost var s0 := p.surface;
    WrittenNone(s0, row, s);
    for i := 0 to |s|
      invariant p.Valid()
      invariant p.surface == s0[row := s[..i] + s0[row][i..]]
    {
      ghost var before := p.surface;
      p.Put(Dot(Point(i, row)), s[i]);
      PointWritesOneCell(before, p.width, p.height, Point(i, row), s[i]);
      WrittenStep(s0, before, row, s, i);
    }
    assert s[..|s|] == s;
  }

  lemma WrittenNone(s0: Grid, row: nat, s: string)
    requires row < |s0|
    ensures s0 == s0[row := s[..0] + s0[row][0..]]
  {
    assert s[..0] + s0[row][0..] == s0[row];
  }

  /** Writing the next character of `s` extends the written prefix. */
  lemma WrittenStep(s0: Grid, before: Grid, row: nat, s: string, i: nat)
    requires row < |s0| && i < |s| && i < |s0[row]|
    requires before == s0[row := s[..i] + s0[row][i..]]
    ensures before[row := before[row][i := s[i]]] == s0[row := s[..i + 1] + s0[row][i + 1..]]
  {
    assert s[..i + 1] + s0[row][i + 1..] == (s[..i] + s0[row][i..])[i := s[i]];
  }

  /** `StrPane::size`: the string's length by one row. */
  function StrPaneSize(line: string): (nat, nat) {
    (|line|, 1)
  }

  /** `StrPane::pane`: a pane of exactly the string's size holding the string. */
  method StrPaneRender(line: string) returns (p: Pane)
    ensures fresh(p) && p.Valid()
    ensures (p.width, p.height) == StrPaneSize(line)
    ensures p.surface == [line]
  {
    var size := StrPaneSize(line);
    p := new Pane(size.0, size.1);
    ghost var blank := p.surface;
    WriteLine(p, line, 0);
    assert blank[0][|line|..] == [];
    assert line + blank[0][|line|..] == line;
  }

  /** Sum of the heights. */
  function SumHeights(sizes: seq<(nat, nat)>): nat
  {
    if sizes == [] then 0 else SumHeights(sizes[..|sizes| - 1]) + sizes[|sizes| - 1].1
  }

  /** Largest width, or 0 when there are no panes. */
  function MaxWidth(sizes: seq<(nat, nat)>): (m: nat)
    ensures forall k :: 0 <= k < |sizes| ==> sizes[k].0 <= m
    ensures sizes == [] ==> m == 0
    ensures sizes != [] ==> exists k :: 0 <= k < |sizes| && sizes[k].0 == m
  {
    if sizes == [] then 0
    else
      var m := MaxWidth(sizes[..|sizes| - 1]);
      var w := sizes[|sizes| - 1].0;
      assert forall k :: 0 <= k < |sizes| - 1 ==> sizes[k] == sizes[..|sizes| - 1][k];
      if w > m then w else m
  }

  /** The sizes of the panes, in order. */
  function Sizes(panes: seq<Pane>): (r: seq<(nat, nat)>)
    ensures |r| == |panes|
    ensures forall k :: 0 <= k < |panes| ==> r[k] == (panes[k].width, panes[k].height)
  {
    seq(|panes|, k requires 0 <= k < |panes| => (panes[k].width, panes[k].height))
  }

  /** `ColumnFittablePane::size`: the widest pane's width (0 for no panes) and
      the sum of the heights. */
  function ColumnFittableSize(panes: seq<Pane>): (size: (nat, nat))
    ensures forall k :: 0 <= k < |panes| ==> panes[k].width <= size.0
    ensures panes == [] ==> size == (0, 0)
  {
    (MaxWidth(Sizes(panes)), SumHeights(Sizes(panes)))
  }

  /** The width is that of a widest pane. */
  lemma ColumnFittableWidest(panes: seq<Pane>)
    requires panes != []
    ensures exists k :: 0 <= k < |panes| && panes[k].width == ColumnFittableSize(panes).0
  {
    var sizes := Sizes(panes);
    assert |sizes| == |panes|;
    var k :| 0 <= k < |sizes| && sizes[k].0 == MaxWidth(sizes);
    assert sizes[k] == (panes[k].width, panes[k].height);
  }

  /** The current surfaces of the panes. */
  ghost function Surfaces(panes: seq<Pane>): (r: seq<Grid>)
    reads set p | p in panes
    ensures |r| == |panes|
  {
    seq(|panes|, k requires 0 <= k < |panes| reads set p | p in panes => panes[k].surface)
  }

  /** The lines `ColumnFittablePane::pane` reads back from one pane. */
  function PaneLines(g: Grid): seq<string> {
    Lines(JoinLines(g))
  }

  /** The lines of all panes, in order. */
  function AllLines(gs: seq<Grid>): seq<string> {
    if gs == [] then [] else AllLines(gs[..|gs| - 1]) + PaneLines(gs[|gs| - 1])
  }

  /** Row `y` of the stacked pane: the `y`-th line read back, padded with the
      blank cells it did not overwrite; rows beyond the lines stay blank. */
  function Stacked(rows: seq<string>, w: nat, h: nat): (r: Grid)
    requires Fit(rows, w, h)
    ensures IsGrid(r, w, h)
  {
    seq(h, y requires 0 <= y < h =>
      if y < |rows| then PadRight(rows[y], w) else Repeat(' ', w))
  }

  /** At most `h` lines, none longer than `w`. */
  predicate Fit(rows: seq<string>, w: nat, h: nat) {
    |rows| <= h && forall k :: 0 <= k < |rows| ==> |rows[k]| <= w
  }

  lemma FitPrefix(a: seq<string>, b: seq<string>, w: nat, h: nat)
    requires a <= b && Fit(b, w, h)
    ensures Fit(a, w, h)
  {
    forall k | 0 <= k < |a| ensures |a[k]| <= w {
      assert a[k] == b[k];
    }
  }

  predicate CleanGrid(g: Grid) {
    forall y :: 0 <= y < |g| ==> NoNewline(g[y])
  }

  /** The lines read back from a pane are its rows, except that an empty last
      row (a pane of width 0) is lost. */
  lemma PaneLinesOf(g: Grid, w: nat, h: nat)
    requires IsGrid(g, w, h) && CleanGrid(g)
    ensures PaneLines(g) == if h >= 1 && w == 0 then g[..h - 1] else g
    ensures |PaneLines(g)| <= h
    ensures forall k :: 0 <= k < |PaneLines(g)| ==> |PaneLines(g)[k]| == w
  {
    LinesOfJoin(g);
  }

  ghost predicate ValidPanes(panes: seq<Pane>)
    reads set p | p in panes
  {
    forall k :: 0 <= k < |panes| ==> panes[k].Valid() && CleanGrid(panes[k].surface)
  }

  lemma {:induction false} AllLinesBounds(panes: seq<Pane>)
    requires ValidPanes(panes)
    ensures |AllLines(Surfaces(panes))| <= SumHeights(Sizes(panes))
    ensures forall k :: 0 <= k < |AllLines(Surfaces(panes))| ==>
      |AllLines(Surfaces(panes))[k]| <= MaxWidth(Sizes(panes))
  {
    if panes != [] {
      var n := |panes| - 1;
      var front := panes[..n];
      AllLinesBounds(front);
      assert Surfaces(panes)[..n] == Surfaces(front);
      assert Sizes(panes)[..n] == Sizes(front);
      PaneLinesOf(panes[n].surface, panes[n].width, panes[n].height);
      var all := AllLines(Surfaces(panes));
      var pre := AllLines(Surfaces(front));
      assert all == pre + PaneLines(panes[n].surface);
      forall k | 0 <= k < |all| ensures |all[k]| <= MaxWidth(Sizes(panes)) {
        if k >= |pre| {
          assert all[k] == PaneLines(panes[n].surface)[k - |pre|];
        } else {
          assert all[k] == pre[k];
          MaxWidthPrefix(Sizes(panes));
        }
      }
    }
  }

  lemma MaxWidthPrefix(sizes: seq<(nat, nat)>)
    requires sizes != []
    ensures MaxWidth(sizes[..|sizes| - 1]) <= MaxWidth(sizes)
  {
  }

  /** `ColumnFittablePane::pane`: a pane of `ColumnFittableSize`, into which
      every line of every pane's text is written at the next row. */
  method ColumnFittableRender(panes: seq<Pane>) returns (r: Pane)
    requires ValidPanes(panes)
    ensures fresh(r) && r.Valid()
    ensures (r.width, r.height) == ColumnFittableSize(panes)
    ensures AllLinesFit(panes)
    ensures r.surface == Stacked(AllLines(Surfaces(panes)), r.width, r.height)
  {
    var size := ColumnFittableSize(panes);
    r := new Pane(size.0, size.1);
    ghost var gs := Surfaces(panes);
    ghost var all := AllLines(gs);
    AllLinesBounds(panes);
    StackedNone(size.0, size.1);
    assert gs[..0] == [];
    var i := 0;
    for k := 0 to |panes|
      invariant r !in panes
      invariant r.Valid() && r.width == size.0 && r.height == size.1
      invariant ValidPanes(panes) && Surfaces(panes) == gs
      invariant i == |AllLines(gs[..k])|
      invariant AllLines(gs[..k]) <= all
      invariant Fit(AllLines(gs[..k]), size.0, size.1)
      invariant r.surface == Stacked(AllLines(gs[..k]), size.0, size.1)
    {
      var lines := Lines(panes[k].Text());
      ghost var done := AllLines(gs[..k]);
      AllLinesStep(gs, k);
      WriteLines(r, done, lines, all, i);
      FitPrefix(done + lines, all, size.0, size.1);
      i := i + |lines|;
    }
    assert gs[..|panes|] == gs;
  }

  /** Nothing stacked yet: the blank pane. */
  lemma StackedNone(w: nat, h: nat)
    ensures Fit([], w, h) && Stacked([], w, h) == Blank(w, h)
  {
    forall y, x | 0 <= y < h && 0 <= x < w
      ensures Blank(w, h)[y][x] == Stacked([], w, h)[y][x]
    {
      assert Stacked([], w, h)[y] == Repeat(' ', w);
    }
    SameGrid(Blank(w, h), Stacked([], w, h), w, h);
  }

  /** The lines of one more pane follow those of the panes before it. */
  lemma AllLinesStep(gs: seq<Grid>, k: nat)
    requires k < |gs|
    ensures AllLines(gs[..k + 1]) == AllLines(gs[..k]) + PaneLines(gs[k])
    ensures AllLines(gs[..k + 1]) <= AllLines(gs)
  {
    assert gs[..k + 1][..k] == gs[..k];
    AllLinesPrefix(gs, k + 1);
  }

  /** Writes `lines` into the rows after those already written. */
  method WriteLines(r: Pane, ghost done: seq<string>, lines: seq<string>, ghost all: seq<string>, start: nat)
    requires r.Valid() && start == |done| && done + lines <= all
    requires Fit(all, r.width, r.height)
    requires (FitPrefix(done, all, r.width, r.height); r.surface == Stacked(done, r.width, r.height))
    modifies r
    ensures r.Valid()
    ensures (FitPrefix(done + lines, all, r.width, r.height);
      r.surface == Stacked(done + lines, r.width, r.height))
  {
    for j := 0 to |lines|
      invariant r.Valid()
      invariant done + lines[..j] <= all
      invariant (FitPrefix(done + lines[..j], all, r.width, r.height);
        r.surface == Stacked(done + lines[..j], r.width, r.height))
    {
      ghost var before := done + lines[..j];
      assert done + lines[..j + 1] == before + [lines[j]];
      assert (done + lines)[|done| + j] == lines[j];
      FitPrefix(before + [lines[j]], all, r.width, r.height);
      FitPrefix(before, all, r.width, r.height);
      assert (before + [lines[j]])[|before|] == lines[j];
      StackedStep(before, lines[j], r.width, r.height);
      WriteLine(r, lines[j], start + j);
    }
    assert lines[..|lines|] == lines;
  }

  /** Writing one more line into a stacked pane stacks one more line. */
  lemma StackedStep(rows: seq<string>, l: string, w: nat, h: nat)
    requires Fit(rows, w, h) && |rows| < h && |l| <= w
    ensures Fit(rows + [l], w, h)
    ensures var s := Stacked(rows, w, h);
      Stacked(rows + [l], w, h) == s[|rows| := l + s[|rows|][|l|..]]
  {
    var s := Stacked(rows, w, h);
    var t := Stacked(rows + [l], w, h);
    var u := s[|rows| := l + s[|rows|][|l|..]];
    forall y | 0 <= y < h ensures t[y] == u[y] {
      if y == |rows| {
        assert (rows + [l])[y] == l;
        assert t[y] == PadRight(l, w);
        assert s[y] == Repeat(' ', w);
        assert l + s[y][|l|..] == PadRight(l, w);
      } else if y < |rows| {
        assert (rows + [l])[y] == rows[y];
      }
    }
  }

  /** Every line read back fits: there are no more lines than the summed
      heights and none is wider than the widest pane. */
  ghost predicate AllLinesFit(panes: seq<Pane>)
    reads set p | p in panes
  {
    && |AllLines(Surfaces(panes))| <= SumHeights(Sizes(panes))
    && forall k :: 0 <= k < |AllLines(Surfaces(panes))| ==>
         |AllLines(Surfaces(panes))[k]| <= MaxWidth(Sizes(panes))
  }

  /** The lines of the first `k` panes come first among all the lines. */
  lemma {:induction false} AllLinesPrefix(gs: seq<Grid>, k: nat)
    requires k <= |gs|
    ensures AllLines(gs[..k]) <= AllLines(gs)
  {
    if k < |gs| {
      var n := |gs| - 1;
      AllLinesPrefix(gs[..n], k);
      assert gs[..n][..k] == gs[..k];
    } else {
      assert gs[..k] == gs;
    }
  }

  /** Each line as a one-row grid: the surfaces of one `StrPane` per line. */
  function Singles(lines: seq<string>): (r: seq<Grid>)
    ensures |r| == |lines|
    ensures forall k :: 0 <= k < |lines| ==> r[k] == [lines[k]]
  {
    seq(|lines|, k requires 0 <= k < |lines| => [lines[k]])
  }

  /** The lines that are not empty, in order. */
  function DropEmpty(lines: seq<string>): (r: seq<string>)
    ensures |r| <= |lines|
    ensures forall k :: 0 <= k < |r| ==> r[k] != [] && r[k] in lines
  {
    if lines == [] then []
    else
      var front := DropEmpty(lines[..|lines| - 1]);
      var last := lines[|lines| - 1];
      if last == [] then front else front + [last]
  }

  /** Without empty lines nothing is dropped. */
  lemma {:induction false} DropEmptyNone(lines: seq<string>)
    requires forall k :: 0 <= k < |lines| ==> lines[k] != []
    ensures DropEmpty(lines) == lines
  {
    if lines != [] {
      DropEmptyNone(lines[..|lines| - 1]);
    }
  }

  /** Reading one-line panes back through `str::lines` gives their lines,
      except the empty ones, which have no line at all. */
  lemma {:induction false} AllLinesSingles(lines: seq<string>)
    requires NoNewlines(lines)
    ensures AllLines(Singles(lines)) == DropEmpty(lines)
  {
    if lines != [] {
      var n := |lines| - 1;
      AllLinesSingles(lines[..n]);
      assert Singles(lines)[..n] == Singles(lines[..n]);
      LinesOfJoin([lines[n]]);
    }
  }

  lemma {:induction false} SizesOfLines(lines: seq<string>, sizes: seq<(nat, nat)>)
    requires |sizes| == |lines|
    requires forall k :: 0 <= k < |lines| ==> sizes[k] == (|lines[k]|, 1)
    ensures MaxWidth(sizes) == MaxLen(lines) && SumHeights(sizes) == |lines|
  {
    if lines != [] {
      var n := |lines| - 1;
      SizesOfLines(lines[..n], sizes[..n]);
    }
  }

  /** One `StrPane` per line, stacked by a `ColumnFittablePane`: the pattern
      every `MatrixPane` renderer follows. The result is as wide as the
      longest line and one row per line; the non-empty lines fill the top
      rows, padded with blanks. */
  method StackLines(lines: seq<string>) returns (r: Pane)
    requires NoNewlines(lines)
    ensures fresh(r) && r.Valid()
    ensures (r.width, r.height) == (MaxLen(lines), |lines|)
    ensures Fit(DropEmpty(lines), r.width, r.height)
    ensures r.surface == Stacked(DropEmpty(lines), r.width, r.height)
  {
    var panes: seq<Pane> := [];
    for k := 0 to |lines|
      invariant |panes| == k
      invariant forall i :: 0 <= i < k ==>
        panes[i].Valid() && panes[i].surface == [lines[i]] && (panes[i].width, panes[i].height) == (|lines[i]|, 1)
    {
      var line := StrPaneRender(lines[k]);
      panes := panes + [line];
    }
    assert Surfaces(panes) == Singles(lines);
    SizesOfLines(lines, Sizes(panes));
    r := ColumnFittableRender(panes);
    AllLinesSingles(lines);
  }
}
