/** `MatrixPane` of src/pane/pane.rs: a `width` by `hight` grid graph whose
    node payloads are strings, rendered row by row. The grid is built by
    `CreateMatrixGraph` with weight-10 links between horizontal and
    vertical neighbours; the renderers stack one `StrPane` per line. */
module Matrix {
  import opened Text
  import opened Canvas
  import opened Arena
  import Panes

  /** The weight `create_matrix_graph` gives every link. */
  const Weight: nat := 10

  /** An edge list as it is stored: absent when nothing was linked. */
  function Stored(links: seq<Link>): Option<seq<Link>> {
    if links == [] then None else Some(links)
  }

  /** The links of node `j` after the first loop of `create_matrix_graph`
      has run its steps below `i`: step `s` links `s - 1` and `s` both ways
      unless `s` starts a row. */
  function RowLinks(w: nat, i: nat, j: nat): seq<Link>
    requires w > 0
  {
    (if j % w != 0 && j < i then [Link(j - 1, Weight)] else []) +
    (if (j + 1) % w != 0 && j + 1 < i then [Link(j + 1, Weight)] else [])
  }

  /** The links of node `j` after the second loop has also run its steps
      below `i`: step `s` links `s` and `s + w` both ways. */
  function ColumnLinks(w: nat, n: nat, i: nat, j: nat): seq<Link>
    requires w > 0
  {
    RowLinks(w, n, j) +
    (if j >= w && j - w < i then [Link(j - w, Weight)] else []) +
    (if j < i then [Link(j + w, Weight)] else [])
  }

  /** The links of node `j` of a grid of `n` nodes, `w` per row: left,
      right, up, down, each present when that neighbour exists. */
  function GridLinks(w: nat, n: nat, j: nat): seq<Link>
  {
    if w == 0 then []
    else
      (if j % w != 0 then [Link(j - 1, Weight)] else []) +
      (if (j + 1) % w != 0 && j + 1 < n then [Link(j + 1, Weight)] else []) +
      (if j >= w then [Link(j - w, Weight)] else []) +
      (if j + w < n then [Link(j + w, Weight)] else [])
  }

  /** Every node holds `d` and the links the first loop has made below `i`. */
  ghost predicate RowsLinked<T>(g: Graph<T>, w: nat, i: nat, d: T)
    requires w > 0
  {
    forall j :: 0 <= j < |g| ==> g[j] == Node(d, Stored(RowLinks(w, i, j)))
  }

  ghost predicate ColumnsLinked<T>(g: Graph<T>, w: nat, i: nat, d: T)
    requires w > 0
  {
    forall j :: 0 <= j < |g| ==> g[j] == Node(d, Stored(ColumnLinks(w, |g|, i, j)))
  }

  /** One step of the first loop. */
  lemma RowStep<T>(g: Graph<T>, w: nat, i: nat, d: T)
    requires w > 0 && 1 <= i < |g| && RowsLinked(g, w, i, d)
    ensures i % w == 0 ==> RowsLinked(g, w, i + 1, d)
    ensures i % w != 0 ==> RowsLinked(AddLink(AddLink(g, i - 1, i, Weight), i, i - 1, Weight), w, i + 1, d)
  {
    if i % w != 0 {
      var g1 := AddLink(g, i - 1, i, Weight);
      var g2 := AddLink(g1, i, i - 1, Weight);
      assert Edges(g2, i - 1) == RowLinks(w, i + 1, i - 1);
      assert Edges(g2, i) == RowLinks(w, i + 1, i);
      forall j | 0 <= j < |g2| ensures g2[j] == Node(d, Stored(RowLinks(w, i + 1, j))) {
        if j != i - 1 && j != i {
          assert RowLinks(w, i + 1, j) == RowLinks(w, i, j);
        }
      }
    } else {
      forall j | 0 <= j < |g| ensures g[j] == Node(d, Stored(RowLinks(w, i + 1, j))) {
        assert RowLinks(w, i + 1, j) == RowLinks(w, i, j);
      }
    }
  }

  /** One step of the second loop. */
  lemma ColumnStep<T>(g: Graph<T>, w: nat, i: nat, d: T)
    requires w > 0 && i + w < |g| && ColumnsLinked(g, w, i, d)
    ensures ColumnsLinked(AddLink(AddLink(g, i, i + w, Weight), i + w, i, Weight), w, i + 1, d)
  {
    var n := |g|;
    var g1 := AddLink(g, i, i + w, Weight);
    var g2 := AddLink(g1, i + w, i, Weight);
    assert Edges(g2, i) == ColumnLinks(w, n, i + 1, i);
    assert Edges(g2, i + w) == ColumnLinks(w, n, i + 1, i + w);
    forall j | 0 <= j < n ensures g2[j] == Node(d, Stored(ColumnLinks(w, n, i + 1, j))) {
      if j != i && j != i + w {
        assert ColumnLinks(w, n, i + 1, j) == ColumnLinks(w, n, i, j);
      }
    }
  }

  /** `MatrixPane::create_matrix_graph`: `w * h` nodes holding `d`, then the
      row links, then the column links. The source computes `w * h - w`,
      which underflows for `h == 0` unless `w == 0`. */
  method CreateMatrixGraph<T>(w: nat, h: nat, d: T) returns (g: Graph<T>)
    requires h >= 1 || w == 0
    ensures |g| == w * h
    ensures forall j :: 0 <= j < |g| ==> g[j] == Node(d, Stored(GridLinks(w, w * h, j)))
  {
    var n := w * h;
    g := [];
    for k := 0 to n
      invariant |g| == k && forall j :: 0 <= j < k ==> g[j] == Node(d, None)
    {
      g := g + [Node(d, None)];
    }
    if n == 0 {
      return;
    }
    RowFits(w, h);
    g := LinkRows(g, w, d);
    g := LinkColumns(g, w, d);
  }

  lemma RowFits(w: nat, h: nat)
    requires h >= 1 || w == 0
    ensures w <= w * h && (w * h > 0 ==> w > 0)
  {
    if h >= 1 {
      assert w * h == w + w * (h - 1);
    }
  }

  /** The first loop of `create_matrix_graph`. */
  method LinkRows<T>(g0: Graph<T>, w: nat, d: T) returns (g: Graph<T>)
    requires w > 0 && |g0| >= 1
    requires forall j :: 0 <= j < |g0| ==> g0[j] == Node(d, None)
    ensures |g| == |g0| && RowsLinked(g, w, |g|, d)
  {
    g := g0;
    var n := |g|;
    assert RowsLinked(g, w, 1, d) by {
      forall j | 0 <= j < n ensures RowLinks(w, 1, j) == [] {
      }
    }
    for i := 1 to n
      invariant |g| == n && RowsLinked(g, w, i, d)
    {
      RowStep(g, w, i, d);
      if i % w == 0 {
        continue;
      }
      g := AddLink(g, i - 1, i, Weight);
      g := AddLink(g, i, i - 1, Weight);
    }
  }

  /** The second loop of `create_matrix_graph`. */
  method LinkColumns<T>(g0: Graph<T>, w: nat, d: T) returns (g: Graph<T>)
    requires w > 0 && w <= |g0| && RowsLinked(g0, w, |g0|, d)
    ensures |g| == |g0|
    ensures forall j :: 0 <= j < |g| ==> g[j] == Node(d, Stored(GridLinks(w, |g|, j)))
  {
    g := g0;
    var n := |g|;
    assert ColumnsLinked(g, w, 0, d) by {
      forall j | 0 <= j < n ensures ColumnLinks(w, n, 0, j) == RowLinks(w, n, j) {
      }
    }
    for i := 0 to n - w
      invariant |g| == n && ColumnsLinked(g, w, i, d)
    {
      ColumnStep(g, w, i, d);
      g := AddLink(g, i, i + w, Weight);
      g := AddLink(g, i + w, i, Weight);
    }
    forall j | 0 <= j < n ensures ColumnLinks(w, n, n - w, j) == GridLinks(w, n, j) {
    }
  }

  /** `MatrixPane::get_xy`: the column and row of node `n`, row-major with
      `w` nodes per row. A width of 0 divides by zero in the source. */
  function GetXY(w: nat, n: nat): (p: (nat, nat))
    requires w > 0
    ensures p.0 < w && n == p.1 * w + p.0
  {
    (n % w, n / w)
  }

  /** Row `y`, column `x` is node `y * w + x`: `GetXY` inverts the
      row-major numbering. */
  lemma GetXYOf(w: nat, x: nat, y: nat)
    requires x < w
    ensures GetXY(w, y * w + x) == (x, y)
  {
    var n := y * w + x;
    var q, r := n / w, n % w;
    assert n == q * w + r;
    if q < y {
      assert (q + 1) * w == q * w + w;
      MulMono(q + 1, y, w);
    } else if q > y {
      assert (y + 1) * w == y * w + w;
      MulMono(y + 1, q, w);
    }
  }

  lemma MulMono(a: nat, b: nat, w: nat)
    requires a <= b
    ensures a * w <= b * w
  {
    var d: nat := b - a;
    assert b * w == a * w + d * w;
  }

  /** Nodes `a` and `b` are horizontal or vertical neighbours on the grid. */
  predicate Adjacent(w: nat, a: nat, b: nat)
    requires w > 0
  {
    var (xa, ya) := GetXY(w, a);
    var (xb, yb) := GetXY(w, b);
    (ya == yb && (xa + 1 == xb || xb + 1 == xa)) ||
    (xa == xb && (ya + 1 == yb || yb + 1 == ya))
  }

  /** A node of the built grid links to exactly its horizontal and vertical
      neighbours, each with weight 10: `i` and `i + 1` are linked only inside
      one row, `i` and `i + w` always. */
  lemma GridLinksAdjacent(w: nat, n: nat, a: nat, b: nat, weight: nat)
    requires w > 0 && a < n
    ensures Link(b, weight) in GridLinks(w, n, a) <==> b < n && weight == Weight && Adjacent(w, a, b)
  {
    var (xa, ya) := GetXY(w, a);
    var (xb, yb) := GetXY(w, b);
    if xa >= 1 {
      GetXYOf(w, xa - 1, ya);
    }
    if xa + 1 < w {
      GetXYOf(w, xa + 1, ya);
    } else {
      assert a + 1 == (ya + 1) * w;
      GetXYOf(w, 0, ya + 1);
    }
    if ya >= 1 {
      assert a - w == (ya - 1) * w + xa;
      GetXYOf(w, xa, ya - 1);
    }
    assert a + w == (ya + 1) * w + xa;
    GetXYOf(w, xa, ya + 1);
    if b < n && Adjacent(w, a, b) {
      if ya == yb && xb + 1 == xa {
        assert b == a - 1;
      } else if ya == yb && xa + 1 == xb {
        assert b == a + 1;
      } else if xa == xb && yb + 1 == ya {
        assert b + w == a;
      } else {
        assert b == a + w;
      }
    }
  }

  /** Every link of the built grid has its reverse, with the same weight. */
  lemma GridSymmetric(w: nat, n: nat, a: nat, b: nat, weight: nat)
    requires w > 0 && a < n && Link(b, weight) in GridLinks(w, n, a)
    ensures b < n && Link(a, weight) in GridLinks(w, n, b)
  {
    GridLinksAdjacent(w, n, a, b, weight);
    GridLinksAdjacent(w, n, b, a, weight);
  }

  /** The payloads of `nodes` joined by single spaces: one rendered row. */
  function JoinData(nodes: seq<Node<string>>): string {
    Join(seq(|nodes|, k requires 0 <= k < |nodes| => nodes[k].data), " ")
  }

  /** `node_list.chunks(w)`, each chunk's payloads joined by spaces. */
  function RowStrings(nodes: seq<Node<string>>, w: nat): (r: seq<string>)
    requires w > 0
    decreases |nodes|
  {
    if nodes == [] then []
    else if |nodes| <= w then [JoinData(nodes)]
    else [JoinData(nodes[..w])] + RowStrings(nodes[w..], w)
  }

  predicate CleanPayloads(nodes: seq<Node<string>>) {
    forall k :: 0 <= k < |nodes| ==> NoNewline(nodes[k].data)
  }

  lemma JoinDataNoNewline(nodes: seq<Node<string>>)
    requires CleanPayloads(nodes)
    ensures NoNewline(JoinData(nodes))
  {
    JoinNoNewline(seq(|nodes|, k requires 0 <= k < |nodes| => nodes[k].data), " ");
  }

  /** A grid of `h` full rows has `h` row strings. */
  lemma {:induction false} RowStringsCount(nodes: seq<Node<string>>, w: nat, h: nat)
    requires w > 0 && |nodes| == w * h
    ensures |RowStrings(nodes, w)| == h
  {
    if h > 0 {
      assert |nodes| == w + w * (h - 1);
      if h > 1 {
        RowStringsCount(nodes[w..], w, h - 1);
      }
    }
  }

  /** When every payload is `c`, every row is `w` copies of `c` joined by
      spaces. */
  lemma {:induction false} RowStringsUniform(nodes: seq<Node<string>>, w: nat, h: nat, c: string)
    requires w > 0 && |nodes| == w * h
    requires forall k :: 0 <= k < |nodes| ==> nodes[k].data == c
    ensures RowStrings(nodes, w) == seq(h, _ => Join(seq(w, _ => c), " "))
  {
    if h > 0 {
      assert |nodes| == w + w * (h - 1);
      assert seq(w, k requires 0 <= k < w => nodes[..w][k].data) == seq(w, _ => c);
      if h > 1 {
        RowStringsUniform(nodes[w..], w, h - 1, c);
      } else {
        assert nodes[..w] == nodes;
      }
    }
  }

  /** The weights of `links` in decimal, in order. */
  function WeightStrings(links: seq<Link>): seq<string> {
    seq(|links|, k requires 0 <= k < |links| => NatToString(links[k].weight))
  }

  /** The line `structure` prints for a node: its index, a bar, and the
      weights of its links in order. */
  function StructureLine(g: Graph<string>, i: nat): string
    requires i < |g|
  {
    NatToString(i) + " | " + Join(WeightStrings(Edges(g, i)), " ")
  }

  function StructureLines(g: Graph<string>): seq<string> {
    seq(|g|, i requires 0 <= i < |g| => StructureLine(g, i))
  }

  lemma StructureLineClean(g: Graph<string>, i: nat)
    requires i < |g|
    ensures NoNewline(StructureLine(g, i)) && StructureLine(g, i) != []
  {
    var ws := WeightStrings(Edges(g, i));
    forall k | 0 <= k < |ws| ensures NoNewline(ws[k]) {
      assert forall j :: 0 <= j < |ws[k]| ==> '0' <= ws[k][j] <= '9';
    }
    JoinNoNewline(ws, " ");
    var d := NatToString(i);
    var r := d + " | " + Join(ws, " ");
    forall j | 0 <= j < |r| ensures r[j] != '\n' {
      if j < |d| {
        assert r[j] == d[j];
      } else if j >= |d| + 3 {
        assert r[j] == Join(ws, " ")[j - |d| - 3];
      }
    }
  }

  /** The line `structure` prints for a node of a built grid: every weight
      is 10, one per neighbour. */
  lemma StructureOfGrid(w: nat, g: Graph<string>, i: nat)
    requires w > 0 && i < |g| && g[i].edges == Stored(GridLinks(w, |g|, i))
    ensures StructureLine(g, i) ==
      NatToString(i) + " | " + Join(seq(|GridLinks(w, |g|, i)|, _ => "10"), " ")
  {
    var e := Edges(g, i);
    assert e == GridLinks(w, |g|, i);
    GridLinksWeight(w, |g|, i);
    assert NatToString(10) == "10";
    assert WeightStrings(e) == seq(|e|, _ => "10") by {
      forall k | 0 <= k < |e| ensures WeightStrings(e)[k] == "10" {
        assert e[k] in GridLinks(w, |g|, i);
      }
    }
  }

  /** Every link of the built grid has weight 10. */
  lemma GridLinksWeight(w: nat, n: nat, j: nat)
    ensures forall l :: l in GridLinks(w, n, j) ==> l.weight == Weight
  {
  }

  /** The loop over `node_list.chunks(w)`: one joined line per chunk. */
  method ChunkRows(nodes: seq<Node<string>>, w: nat) returns (lines: seq<string>)
    requires w > 0 && CleanPayloads(nodes)
    ensures lines == RowStrings(nodes, w) && NoNewlines(lines)
  {
    lines := [];
    var rest := nodes;
    while rest != []
      invariant CleanPayloads(rest)
      invariant lines + RowStrings(rest, w) == RowStrings(nodes, w)
      invariant NoNewlines(lines)
      decreases |rest|
    {
      var size := if |rest| <= w then |rest| else w;
      var line := JoinData(rest[..size]);
      JoinDataNoNewline(rest[..size]);
      if |rest| <= w {
        assert rest[..size] == rest && rest[size..] == [];
        assert RowStrings(rest, w) == [line] + RowStrings(rest[size..], w);
      } else {
        assert RowStrings(rest, w) == [line] + RowStrings(rest[size..], w);
      }
      assert CleanPayloads(rest[size..]) by {
        forall k | 0 <= k < |rest| - size ensures NoNewline(rest[size..][k].data) {
          assert rest[size..][k] == rest[size + k];
        }
      }
      lines := lines + [line];
      rest := rest[size..];
    }
  }

  class MatrixPane {
    var gh: Graph<string>
    const c: string
    const width: nat
    const hight: nat

    /** The arena is a `width` by `hight` grid whose links are those
        `create_matrix_graph` makes; payloads may be anything. */
    ghost predicate Valid()
      reads this
    {
      |gh| == width * hight &&
      forall j :: 0 <= j < |gh| ==> gh[j].edges == Stored(GridLinks(width, |gh|, j))
    }

    /** `MatrixPane::new`: the grid with every payload `c`. */
    constructor (width: nat, hight: nat, c: string)
      requires hight >= 1 || width == 0
      ensures Valid()
      ensures this.width == width && this.hight == hight && this.c == c
      ensures forall j :: 0 <= j < |gh| ==> gh[j].data == c
    {
      this.width := width;
      this.hight := hight;
      this.c := c;
      var g := CreateMatrixGraph(width, hight, c);
      gh := g;
    }

    /** `MatrixPane::clean`: every payload back to `c`, the links untouched. */
    method Clean()
      requires Valid()
      modifies this
      ensures Valid()
      ensures |gh| == |old(gh)|
      ensures forall j :: 0 <= j < |gh| ==> gh[j] == old(gh)[j].(data := c)
    {
      ghost var g0 := gh;
      for j := 0 to |gh|
        invariant |gh| == |g0|
        invariant forall k :: 0 <= k < |gh| ==> gh[k] == if k < j then g0[k].(data := c) else g0[k]
      {
        gh := gh[j := gh[j].(data := c)];
      }
    }

    /** `get_node(i).unwrap().borrow_mut().data = s`: the payload of node `i`
        becomes `s`; a missing node makes the source panic. */
    method SetData(i: nat, s: string)
      requires Valid() && i < |gh|
      modifies this
      ensures Valid()
      ensures gh == old(gh)[i := old(gh)[i].(data := s)]
    {
      gh := gh[i := gh[i].(data := s)];
    }

    /** `Surface::pane` for `MatrixPane`: one line per row of `width` nodes,
        the payloads joined by spaces, stacked. A width of 0 makes `chunks`
        panic; a payload holding a newline would be split into more lines
        than the pane has rows. */
    method Render() returns (p: Pane)
      requires Valid() && width > 0 && CleanPayloads(gh)
      ensures fresh(p) && p.Valid()
      ensures (p.width, p.height) == (MaxLen(RowStrings(gh, width)), hight)
      ensures Panes.Fit(Panes.DropEmpty(RowStrings(gh, width)), p.width, p.height)
      ensures p.surface == Panes.Stacked(Panes.DropEmpty(RowStrings(gh, width)), p.width, p.height)
    {
      var lines := ChunkRows(gh, width);
      RowStringsCount(gh, width, hight);
      p := Panes.StackLines(lines);
    }

    /** `MatrixPane::orig_pane`: what the pane shows with every payload `c`,
        computed without looking at the nodes. */
    method OrigPane() returns (p: Pane)
      requires NoNewline(c)
      ensures fresh(p) && p.Valid()
      ensures (p.width, p.height) == (MaxLen(seq(hight, _ => Join(seq(width, _ => c), " "))), hight)
      ensures Panes.Fit(Panes.DropEmpty(seq(hight, _ => Join(seq(width, _ => c), " "))), p.width, p.height)
      ensures p.surface == Panes.Stacked(Panes.DropEmpty(seq(hight, _ => Join(seq(width, _ => c), " "))), p.width, p.height)
    {
      var lines: seq<string> := [];
      JoinNoNewline(seq(width, _ => c), " ");
      for i := 0 to hight
        invariant lines == seq(i, _ => Join(seq(width, _ => c), " "))
      {
        var line := Join(seq(width, _ => c), " ");
        lines := lines + [line];
      }
      p := Panes.StackLines(lines);
    }

    /** `MatrixPane::structure`: one line per node, its index and its link
        weights. */
    method Structure() returns (p: Pane)
      ensures fresh(p) && p.Valid()
      ensures (p.width, p.height) == (MaxLen(StructureLines(gh)), |gh|)
      ensures Panes.Fit(StructureLines(gh), p.width, p.height)
      ensures p.surface == Panes.Stacked(StructureLines(gh), p.width, p.height)
    {
      var g := gh;
      var lines: seq<string> := [];
      for i := 0 to |g|
        invariant lines == StructureLines(g)[..i]
      {
        var weights: seq<string> := [];
        var edges := Edges(g, i);
        for k := 0 to |edges|
          invariant weights == WeightStrings(edges[..k])
        {
          assert edges[..k + 1][..k] == edges[..k];
          weights := weights + [NatToString(edges[k].weight)];
        }
        assert edges[..|edges|] == edges;
        var line := NatToString(i) + " | " + Join(weights, " ");
        assert StructureLines(g)[..i + 1] == StructureLines(g)[..i] + [line];
        lines := lines + [line];
      }
      assert lines == StructureLines(gh);
      forall i | 0 <= i < |lines| ensures NoNewline(lines[i]) && lines[i] != [] {
        StructureLineClean(gh, i);
      }
      Panes.DropEmptyNone(lines);
      p := Panes.StackLines(lines);
    }
  }

  /** After `clean`, the matrix shows exactly what `orig_pane` shows. */
  lemma CleanShowsOrig(m: MatrixPane)
    requires m.Valid() && m.width > 0
    requires forall j :: 0 <= j < |m.gh| ==> m.gh[j].data == m.c
    ensures RowStrings(m.gh, m.width) == seq(m.hight, _ => Join(seq(m.width, _ => m.c), " "))
  {
    RowStringsUniform(m.gh, m.width, m.hight, m.c);
  }
}
