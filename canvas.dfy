/** The character canvas `Pane` of src/pane/pane.rs: a width×height grid of
    cells, written by point and axis-aligned line shapes, rendered as its rows
    joined by newlines. `Put` is proved against the pure `Draw`; `PaintAll`
    folds a sequence of strokes and `LastWriter` says which stroke a cell
    shows. */
module Canvas {
  import opened Text

  datatype Point = Point(x: nat, y: nat)

  /** `Shape::Line(p1, p2)` and `Shape::Point(p)`. */
  datatype Shape = Line(from: Point, to: Point) | Dot(at: Point)

  /** One call of `put`: a shape and the character it writes. */
  datatype Stroke = Stroke(shape: Shape, glyph: char)

  type Grid = seq<seq<char>>

  function Min(a: nat, b: nat): nat { if a <= b then a else b }
  function Max(a: nat, b: nat): nat { if a <= b then b else a }

  predicate IsGrid(s: Grid, w: nat, h: nat) {
    |s| == h && forall y :: 0 <= y < h ==> |s[y]| == w
  }

  /** The cells a shape writes. A horizontal line covers the half-open column
      range from the smaller to the larger x, a vertical line the half-open row
      range; a line whose endpoints differ in both coordinates covers nothing. */
  predicate Covers(shape: Shape, x: nat, y: nat) {
    match shape
    case Dot(p) => x == p.x && y == p.y
    case Line(p, q) =>
      if p.y == q.y then y == p.y && Min(p.x, q.x) <= x < Max(p.x, q.x)
      else if p.x == q.x then x == p.x && Min(p.y, q.y) <= y < Max(p.y, q.y)
      else false
  }

  /** What `put` needs so that it never indexes outside the surface: every
      cell it writes lies inside the grid. A line that writes nothing needs
      nothing. */
  predicate Fits(shape: Shape, w: nat, h: nat) {
    match shape
    case Dot(p) => p.x < w && p.y < h
    case Line(p, q) =>
      if p.y == q.y then Min(p.x, q.x) < Max(p.x, q.x) ==> p.y < h && Max(p.x, q.x) <= w
      else if p.x == q.x then p.x < w && Max(p.y, q.y) <= h
      else true
  }

  /** Every cell that a fitting shape covers is inside the grid. */
  lemma FitsCoversInside(shape: Shape, w: nat, h: nat, x: nat, y: nat)
    requires Fits(shape, w, h) && Covers(shape, x, y)
    ensures x < w && y < h
  {
  }

  /** `vec![vec![' '; width]; hight]`. */
  function Blank(w: nat, h: nat): Grid {
    seq(h, _ => seq(w, _ => ' '))
  }

  /** The grid after writing `c` into every cell the shape covers. */
  function Draw(s: Grid, shape: Shape, c: char): (r: Grid)
    ensures |r| == |s| && forall y :: 0 <= y < |s| ==> |r[y]| == |s[y]|
  {
    seq(|s|, y requires 0 <= y < |s| =>
      seq(|s[y]|, x requires 0 <= x < |s[y]| =>
        if Covers(shape, x, y) then c else s[y][x]))
  }

  /** Drawing keeps the grid's shape and changes exactly the covered cells. */
  lemma DrawCell(s: Grid, w: nat, h: nat, shape: Shape, c: char)
    requires IsGrid(s, w, h)
    ensures IsGrid(Draw(s, shape, c), w, h)
    ensures forall y, x :: 0 <= y < h && 0 <= x < w ==>
      Draw(s, shape, c)[y][x] == if Covers(shape, x, y) then c else s[y][x]
  {
  }

  /** A point writes exactly one cell. */
  lemma PointWritesOneCell(s: Grid, w: nat, h: nat, p: Point, c: char)
    requires IsGrid(s, w, h) && p.x < w && p.y < h
    ensures Draw(s, Dot(p), c) == s[p.y := s[p.y][p.x := c]]
  {
    var r := Draw(s, Dot(p), c);
    var t := s[p.y := s[p.y][p.x := c]];
    assert |r| == |t|;
    forall y | 0 <= y < h ensures r[y] == t[y] {
      assert |r[y]| == |t[y]|;
    }
  }

  /** A line whose endpoints share their row writes the half-open span of
      columns of that row; equal endpoints write nothing. */
  lemma HorizontalLineSpan(p: Point, q: Point, x: nat, y: nat)
    requires p.y == q.y
    ensures Covers(Line(p, q), x, y) <==> y == p.y && Min(p.x, q.x) <= x < Max(p.x, q.x)
    ensures p.x == q.x ==> !Covers(Line(p, q), x, y)
  {
  }

  /** A line whose endpoints share their column (and not their row) writes the
      half-open span of rows of that column, never the lower endpoint. */
  lemma VerticalLineSpan(p: Point, q: Point, x: nat, y: nat)
    requires p.x == q.x && p.y != q.y
    ensures Covers(Line(p, q), x, y) <==> x == p.x && Min(p.y, q.y) <= y < Max(p.y, q.y)
    ensures !Covers(Line(p, q), p.x, Max(p.y, q.y))
  {
  }

  /** Lines that write nothing leave the grid as it was: equal endpoints and
      endpoints that differ in both coordinates. */
  lemma {:induction false} EmptyLineNoOp(s: Grid, p: Point, q: Point, c: char)
    requires p == q || (p.x != q.x && p.y != q.y)
    ensures Draw(s, Line(p, q), c) == s
  {
    var r := Draw(s, Line(p, q), c);
    assert |r| == |s|;
    forall y | 0 <= y < |s| ensures r[y] == s[y] {
      assert |r[y]| == |s[y]|;
      forall x | 0 <= x < |s[y]| ensures r[y][x] == s[y][x] {
        assert !Covers(Line(p, q), x, y);
      }
    }
  }

  /** The grid after a sequence of `put` calls, in order. */
  function PaintAll(s: Grid, strokes: seq<Stroke>): (r: Grid)
    ensures |r| == |s| && forall y :: 0 <= y < |s| ==> |r[y]| == |s[y]|
  {
    if strokes == [] then s
    else
      var last := strokes[|strokes| - 1];
      Draw(PaintAll(s, strokes[..|strokes| - 1]), last.shape, last.glyph)
  }

  /** Whether some stroke writes cell (x, y). */
  predicate Touched(strokes: seq<Stroke>, x: nat, y: nat) {
    exists k :: 0 <= k < |strokes| && Covers(strokes[k].shape, x, y)
  }

  /** The index of the last stroke that writes cell (x, y). */
  function LastCover(strokes: seq<Stroke>, x: nat, y: nat): (k: nat)
    requires Touched(strokes, x, y)
    ensures k < |strokes| && Covers(strokes[k].shape, x, y)
    ensures forall j :: k < j < |strokes| ==> !Covers(strokes[j].shape, x, y)
  {
    var n := |strokes| - 1;
    if Covers(strokes[n].shape, x, y) then n
    else
      assert Touched(strokes[..n], x, y) by {
        var k :| 0 <= k < |strokes| && Covers(strokes[k].shape, x, y);
        assert k < n && strokes[..n][k] == strokes[k];
      }
      var k := LastCover(strokes[..n], x, y);
      assert strokes[..n][k] == strokes[k];
      k
  }

  /** Later strokes win: a cell shows the glyph of the last stroke that writes
      it, and a cell no stroke writes keeps its old character. */
  lemma {:induction false} LastWriter(s: Grid, w: nat, h: nat, strokes: seq<Stroke>, x: nat, y: nat)
    requires IsGrid(s, w, h) && x < w && y < h
    ensures IsGrid(PaintAll(s, strokes), w, h)
    ensures PaintAll(s, strokes)[y][x] ==
      if Touched(strokes, x, y) then strokes[LastCover(strokes, x, y)].glyph else s[y][x]
  {
    if strokes != [] {
      var n := |strokes| - 1;
      var prefix := strokes[..n];
      LastWriter(s, w, h, prefix, x, y);
      DrawCell(PaintAll(s, prefix), w, h, strokes[n].shape, strokes[n].glyph);
      if !Covers(strokes[n].shape, x, y) {
        if Touched(strokes, x, y) {
          var k :| 0 <= k < |strokes| && Covers(strokes[k].shape, x, y);
          assert prefix[k] == strokes[k];
          assert Touched(prefix, x, y);
          var j := LastCover(prefix, x, y);
          assert prefix[j] == strokes[j];
          assert LastCover(strokes, x, y) == j;
        } else {
          assert !Touched(prefix, x, y) by {
            forall k | 0 <= k < n ensures !Covers(prefix[k].shape, x, y) {
              assert prefix[k] == strokes[k];
            }
          }
        }
      }
    }
  }

  /** A cell shows the glyph of a stroke that writes it when no later stroke
      writes it. */
  lemma ShowsLast(s: Grid, w: nat, h: nat, strokes: seq<Stroke>, x: nat, y: nat, m: nat)
    requires IsGrid(s, w, h) && x < w && y < h
    requires m < |strokes| && Covers(strokes[m].shape, x, y)
    requires forall i :: m < i < |strokes| ==> !Covers(strokes[i].shape, x, y)
    ensures PaintAll(s, strokes)[y][x] == strokes[m].glyph
  {
    LastWriter(s, w, h, strokes, x, y);
    var k := LastCover(strokes, x, y);
    assert !(k < m) && !(m < k);
  }

  /** When every stroke that writes a cell writes the same glyph, the cell
      shows that glyph if it was written at all and is unchanged otherwise. */
  lemma ShowsUniform(s: Grid, w: nat, h: nat, strokes: seq<Stroke>, x: nat, y: nat, g: char)
    requires IsGrid(s, w, h) && x < w && y < h
    requires forall i :: 0 <= i < |strokes| && Covers(strokes[i].shape, x, y) ==> strokes[i].glyph == g
    ensures PaintAll(s, strokes)[y][x] == if Touched(strokes, x, y) then g else s[y][x]
  {
    LastWriter(s, w, h, strokes, x, y);
  }

  /** The canvas `Pane`: its size never changes, its surface is rewritten cell
      by cell by `Put`. */
  class Pane {
    const width: nat
    const height: nat
    var surface: Grid

    ghost predicate Valid()
      reads this
    {
      IsGrid(surface, width, height)
    }

    /** `Pane::new`: a blank grid of `height` rows of `width` spaces. */
    constructor (width: nat, height: nat)
      ensures Valid()
      ensures this.width == width && this.height == height
      ensures surface == Blank(width, height)
    {
      this.width := width;
      this.height := height;
      surface := Blank(width, height);
    }

    /** `Pane::put`: a point writes one cell; a line writes its half-open span
        one cell at a time in a `while min < max` loop. */
    method Put(shape: Shape, c: char)
      requires Valid() && Fits(shape, width, height)
      modifies this
      ensures Valid()
      ensures surface == Draw(old(surface), shape, c)
    {
      ghost var s0 := surface;
      match shape {
        case Dot(p) =>
          surface := surface[p.y := surface[p.y][p.x := c]];
          PointWritesOneCell(s0, width, height, p, c);
        case Line(p1, p2) =>
          if p1.y == p2.y {
            var lo := Min(p1.x, p2.x);
            var min := lo;
            var max := Max(p1.x, p2.x);
            while min < max
              invariant lo <= min <= max
              invariant IsGrid(surface, width, height)
              invariant forall y, x :: 0 <= y < height && 0 <= x < width ==>
                surface[y][x] == if y == p1.y && lo <= x < min then c else s0[y][x]
            {
              surface := surface[p1.y := surface[p1.y][min := c]];
              min := min + 1;
            }
          } else if p1.x == p2.x {
            var lo := Min(p1.y, p2.y);
            var min := lo;
            var max := Max(p1.y, p2.y);
            while min < max
              invariant lo <= min <= max
              invariant IsGrid(surface, width, height)
              invariant forall y, x :: 0 <= y < height && 0 <= x < width ==>
                surface[y][x] == if x == p1.x && lo <= y < min then c else s0[y][x]
            {
              surface := surface[min := surface[min][p1.x := c]];
              min := min + 1;
            }
          }
          DrawCell(s0, width, height, shape, c);
          forall y, x | 0 <= y < height && 0 <= x < width
            ensures surface[y][x] == Draw(s0, shape, c)[y][x]
          {
          }
          SameGrid(surface, Draw(s0, shape, c), width, height);
      }
    }

    /** `Display for Pane`: the rows joined by newlines. */
    function Text(): (t: string)
      reads this
      requires Valid() && forall y :: 0 <= y < height ==> NoNewline(surface[y])
      ensures height >= 1 ==> Split(t) == surface
    {
      if height >= 1 then SplitJoinLines(surface); JoinLines(surface)
      else JoinLines(surface)
    }
  }

  /** Two grids of the same shape that agree on every cell are equal. */
  lemma SameGrid(a: Grid, b: Grid, w: nat, h: nat)
    requires IsGrid(a, w, h) && IsGrid(b, w, h)
    requires forall y, x :: 0 <= y < h && 0 <= x < w ==> a[y][x] == b[y][x]
    ensures a == b
  {
    forall y | 0 <= y < h ensures a[y] == b[y] {
    }
  }
}
