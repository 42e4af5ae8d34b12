/** The box diagram of `src/line_gh.rs`: a graph whose vertices are text
    boxes, kept as an adjacency map from a box index to the indices it links
    to; the degree of a box decides how wide it is drawn, and the boxes are
    printed side by side. */
module LineGraph {
  import opened Text
  import opened Connected
  import Canvas

  lemma MinExists(keys: set<nat>)
    requires keys != {}
    ensures exists k :: k in keys && forall j :: j in keys ==> k <= j
  {
    var x :| x in keys;
    MinBelow(keys, x);
  }

  /** Some key at most `x` is the least: step down to a smaller key until
      there is none. */
  lemma {:induction false} MinBelow(keys: set<nat>, x: nat)
    requires x in keys
    ensures exists k :: k in keys && forall j :: j in keys ==> k <= j
    decreases x
  {
    if exists j :: j in keys && j < x {
      var j :| j in keys && j < x;
      MinBelow(keys, j);
    } else {
      assert forall j :: j in keys ==> x <= j;
    }
  }

  /** The least key: the first one a `BTreeMap` visits. */
  function MinKey(keys: set<nat>): (k: nat)
    requires keys != {}
    ensures k in keys && forall j :: j in keys ==> k <= j
  {
    MinExists(keys);
    var k :| k in keys && forall j :: j in keys ==> k <= j;
    k
  }

  /** The number of occurrences of `i` across all lists, folded over the
      map in key order. */
  function InDegree(vertices: map<nat, seq<nat>>, i: nat): nat
    decreases |vertices|
  {
    if vertices == map[] then 0
    else
      var k := MinKey(vertices.Keys);
      Count(vertices[k], i) + InDegree(vertices - {k}, i)
  }

  /** The fold does not depend on the order: any key can be taken first. */
  lemma {:induction false} InDegreeRemove(vertices: map<nat, seq<nat>>, k: nat, i: nat)
    requires k in vertices
    ensures InDegree(vertices, i) == Count(vertices[k], i) + InDegree(vertices - {k}, i)
    decreases |vertices|
  {
    var k0: nat := MinKey(vertices.Keys);
    if k0 != k {
      var without0 := vertices - {k0};
      var without := vertices - {k};
      InDegreeRemove(without0, k, i);
      InDegreeRemove(without, k0, i);
      assert without0 - {k} == without - {k0};
      assert without0[k] == vertices[k] && without[k0] == vertices[k0];
    }
  }

  /** Every listed index is a key: `connect` adds both ends. */
  ghost predicate Closed(vertices: map<nat, seq<nat>>) {
    forall k, j :: k in vertices && 0 <= j < |vertices[k]| ==> vertices[k][j] in vertices
  }

  lemma {:induction false} CountZero(s: seq<nat>, i: nat)
    requires forall j :: 0 <= j < |s| ==> s[j] != i
    ensures Count(s, i) == 0
  {
    if s != [] {
      CountZero(s[..|s| - 1], i);
    }
  }

  /** An index that is not a key occurs in no list of a closed map. */
  lemma {:induction false} InDegreeZero(vertices: map<nat, seq<nat>>, i: nat)
    requires forall k, j :: k in vertices && 0 <= j < |vertices[k]| ==> vertices[k][j] != i
    ensures InDegree(vertices, i) == 0
    decreases |vertices|
  {
    if vertices != map[] {
      var k := MinKey(vertices.Keys);
      CountZero(vertices[k], i);
      InDegreeZero(vertices - {k}, i);
    }
  }

  /** `count_by`: 0 for an unknown index; otherwise the length of its own
      list plus its occurrences across all lists, so a link from a box to
      itself counts twice. */
  function CountBy(vertices: map<nat, seq<nat>>, i: nat): nat {
    if i in vertices then |vertices[i]| + InDegree(vertices, i) else 0
  }

  /** `structure`: every key with its number of outgoing links and its
      number of incoming ones. */
  function Structure(vertices: map<nat, seq<nat>>): (r: map<nat, (nat, nat)>)
    ensures r.Keys == vertices.Keys
    ensures forall k :: k in vertices ==> r[k] == (|vertices[k]|, InDegree(vertices, k))
  {
    map k | k in vertices :: (|vertices[k]|, CountBy(vertices, k) - |vertices[k]|)
  }

  /** The list of `e`, empty when `e` is not a key. */
  function ListOf(vertices: map<nat, seq<nat>>, e: nat): seq<nat> {
    if e in vertices then vertices[e] else []
  }

  /** The map after `connect(e1, e2)`. */
  function Linked(vertices: map<nat, seq<nat>>, e1: nat, e2: nat): (r: map<nat, seq<nat>>)
    ensures r.Keys == vertices.Keys + {e1, e2}
    ensures r[e1] == ListOf(vertices, e1) + [e2]
    ensures e2 != e1 ==> r[e2] == ListOf(vertices, e2)
    ensures forall k :: k in vertices && k != e1 && k != e2 ==> r[k] == vertices[k]
  {
    var added := vertices[e1 := ListOf(vertices, e1) + [e2]];
    if e2 in added then added else added[e2 := []]
  }

  /** Connecting keeps the map closed and adds one to the count of each
      end (two to a box linked to itself); no other count changes. */
  lemma ConnectCount(vertices: map<nat, seq<nat>>, e1: nat, e2: nat, i: nat)
    requires Closed(vertices)
    ensures Closed(Linked(vertices, e1, e2))
    ensures CountBy(Linked(vertices, e1, e2), i) ==
      CountBy(vertices, i) + (if i == e1 then 1 else 0) + (if i == e2 then 1 else 0)
  {
    var r := Linked(vertices, e1, e2);
    LinkedInDegree(vertices, e1, e2, i);
    if i !in vertices {
      InDegreeZero(vertices, i);
    }
  }

  /** Connecting adds one occurrence of `e2`. */
  lemma LinkedInDegree(vertices: map<nat, seq<nat>>, e1: nat, e2: nat, i: nat)
    ensures InDegree(Linked(vertices, e1, e2), i) == InDegree(vertices, i) + (if i == e2 then 1 else 0)
  {
    var r := Linked(vertices, e1, e2);
    InDegreeRemove(r, e1, i);
    CountAppend(ListOf(vertices, e1), e2, i);
    InDegreeSplit(vertices, e1, i);
    LinkedRest(vertices, e1, e2, i);
  }

  /** The fold with the list of `e` taken out, whether or not `e` is a key. */
  lemma InDegreeSplit(vertices: map<nat, seq<nat>>, e: nat, i: nat)
    ensures InDegree(vertices, i) == Count(ListOf(vertices, e), i) + InDegree(vertices - {e}, i)
  {
    if e in vertices {
      InDegreeRemove(vertices, e, i);
    } else {
      assert vertices - {e} == vertices;
    }
  }

  /** Apart from the list of `e1`, connecting adds at most an empty list. */
  lemma LinkedRest(vertices: map<nat, seq<nat>>, e1: nat, e2: nat, i: nat)
    ensures InDegree(Linked(vertices, e1, e2) - {e1}, i) == InDegree(vertices - {e1}, i)
  {
    var rest := vertices - {e1};
    var r := Linked(vertices, e1, e2);
    if e2 != e1 && e2 !in vertices {
      assert r - {e1} == rest[e2 := []];
      InDegreeRemove(rest[e2 := []], e2, i);
      assert rest[e2 := []] - {e2} == rest;
    } else {
      assert r - {e1} == rest;
    }
  }

  /** The graph with its boxes' texts and the layout settings. */
  class LineGH {
    var vertices: map<nat, seq<nat>>
    var edges: seq<string>
    const paneSettings: PaneSettings

    /** `LineGH::new`: gap and connection size 1, the '|' connector. */
    constructor ()
      ensures vertices == map[] && edges == []
      ensures paneSettings == PaneSettings(1, 1, General)
    {
      vertices := map[];
      edges := [];
      paneSettings := PaneSettings(1, 1, General);
    }

    constructor WithSettings(settings: PaneSettings)
      ensures vertices == map[] && edges == [] && paneSettings == settings
    {
      vertices := map[];
      edges := [];
      paneSettings := settings;
    }

    /** `add_edge`: a new box; its index is the number of boxes before it,
        so boxes are numbered 0, 1, 2, ... in the order they are added. */
    method AddEdge(edge: string) returns (index: nat)
      modifies this
      ensures edges == old(edges) + [edge] && index == |old(edges)|
      ensures vertices == old(vertices)
    {
      edges := edges + [edge];
      index := |edges| - 1;
    }

    /** `connect(e1, e2)`: `e2` goes at the end of `e1`'s list, created when
        absent; `e2` gets an empty list if it has none. */
    method Connect(e1: nat, e2: nat)
      modifies this
      ensures vertices == Linked(old(vertices), e1, e2)
      ensures edges == old(edges)
    {
      var list := if e1 in vertices then vertices[e1] else [];
      vertices := vertices[e1 := list + [e2]];
      if e2 !in vertices {
        vertices := vertices[e2 := []];
      }
    }

    /** `fmt`: boxes sized by the tab rule, every link connected in key
        order into a `ConnectedPane`, the pane written with a newline, then
        the boxes side by side. */
    method Display() returns (text: string)
      requires Drawable(vertices, edges) && |edges| >= 1
      ensures text == DisplayText(vertices, edges, paneSettings)
    {
      var cs := paneSettings.connectionSize;
      var concept := BoxLengths(vertices, edges, cs);
      var pane := new ConnectedPane(concept, paneSettings);
      ConnectAll(pane, vertices);
      DisplayColumnsFit(vertices, edges, paneSettings, pane.connectedList);
      var p := pane.Render();
      assert p.width == PaneWidth(concept, paneSettings.gapSize);
      assert p.height == |pane.connectedList| * 2;
      assert p.surface == PaneGrid(concept, paneSettings, pane.connectedList);
      var boxed := FlattenLine(BoxTexts(vertices, edges, cs), paneSettings.gapSize);
      text := JoinLines(p.surface) + "\n" + boxed;
    }
  }

  /** `f64::ceil(a as f64 / b as f64) as usize` on exact integers. */
  function CeilDiv(a: nat, b: nat): (r: nat)
    requires b > 0
    ensures r * b >= a
    ensures r == 0 || (r - 1) * b < a
  {
    (a + b - 1) / b
  }

  /** `FormatBox::line_lenght`: the two borders, the tab on each side and the
      longest line of the message. */
  function LineLength(message: string, tab: nat): nat {
    2 + tab * 2 + MaxLen(Lines(message))
  }

  /** The tab size `fmt` gives box `i`: 1, unless more links touch it than a
      single box has room for (its width over the connection size, rounded
      up); then one connection size per extra link, plus one. With a
      connection size of 0 the quotient is infinite and the box is single. */
  function TabSize(count: nat, message: string, connectionSize: nat): (tab: nat)
    ensures tab >= 1
  {
    TabFor(count, LineLength(message, 1), connectionSize)
  }

  /** The tab rule for a box whose single-tab line length is `single`. */
  function TabFor(count: nat, single: nat, cs: nat): (tab: nat)
    ensures tab >= 1
  {
    if cs == 0 then 1
    else
      var maxOnLine := CeilDiv(single, cs);
      if count > maxOnLine then Widened(count - maxOnLine, cs) else 1
  }

  function Widened(extra: nat, cs: nat): (tab: nat)
    ensures tab >= 1
  {
    extra * cs + 1
  }

  /** The tab rule leaves room for `count` columns one connection size
      apart: each tab step widens the box by two. */
  lemma TabForFits(count: nat, single: nat, cs: nat)
    requires cs >= 1 && count >= 1 && single >= 1
    ensures (count - 1) * cs + 1 <= single + 2 * (TabFor(count, single, cs) - 1)
  {
    var m := CeilDiv(single, cs);
    if count > m {
      var extra := (count - m) * cs;
      assert (count - 1) * cs == (m - 1) * cs + extra by {
        MulSplit(count - 1, m - 1, cs);
      }
    } else {
      MulMonotone(count - 1, m - 1, cs);
    }
  }

  /** A box is wide enough for the columns of all the links that touch it,
      one connection size apart (as `ConnectedPane` places them). */
  lemma BoxHoldsConnections(count: nat, message: string, cs: nat)
    requires cs >= 1 && count >= 1
    ensures (count - 1) * cs + 1 <= LineLength(message, TabSize(count, message, cs))
  {
    TabForFits(count, LineLength(message, 1), cs);
  }

  lemma MulSplit(a: nat, b: nat, c: nat)
    requires b <= a
    ensures a * c == b * c + (a - b) * c
  {
  }

  lemma MulMonotone(a: nat, b: nat, c: nat)
    requires a <= b
    ensures a * c <= b * c
  {
  }

  /** One message line inside the box: border, tab, the line padded to the
      longest one, tab, border. */
  function ContentRow(l: string, tab: nat, maxLen: nat): string {
    "|" + Repeat(' ', tab) + PadRight(l, maxLen) + Repeat(' ', tab) + "|"
  }

  function ContentRows(lines: seq<string>, tab: nat, maxLen: nat): (r: seq<string>)
    ensures |r| == |lines|
    ensures forall k :: 0 <= k < |lines| ==> r[k] == ContentRow(lines[k], tab, maxLen)
  {
    if lines == [] then []
    else ContentRows(lines[..|lines| - 1], tab, maxLen) + [ContentRow(lines[|lines| - 1], tab, maxLen)]
  }

  /** `FormatBox::fmt`: a dashed line, a blank bordered line when the tab
      is not 0, the content lines, the blank line again and the dashed line. */
  function BoxString(message: string, tab: nat): string {
    var width := LineLength(message, tab);
    var horizontalLine := Repeat('-', width);
    var verticalSpace := "|" + Repeat(' ', width - 2) + "|";
    var content := JoinLines(ContentRows(Lines(message), tab, MaxLen(Lines(message))));
    var spaceLined := if tab > 0 then verticalSpace + "\n" else "";
    horizontalLine + "\n" + spaceLined + content + "\n" + spaceLined + horizontalLine
  }

  /** Rows between two copies of a border row, with an optional spacer row
      inside each border. */
  function Framed(border: string, space: seq<string>, middle: seq<string>): seq<string> {
    [border] + space + middle + space + [border]
  }

  /** The blank bordered row of a box of width `width`, when its tab is not 0. */
  function Spacer(width: nat, tab: nat): (r: seq<string>)
    requires width >= 2
    ensures |r| <= 1
  {
    if tab > 0 then ["|" + Repeat(' ', width - 2) + "|"] else []
  }

  /** The content rows, or one empty row when there are none. */
  function Middle(rows: seq<string>): (r: seq<string>)
    ensures r != []
  {
    if rows == [] then [""] else rows
  }

  /** The lines of a box, as `str::lines` reads them back. A message without
      lines leaves one empty line where the content goes. */
  function BoxRows(message: string, tab: nat): seq<string> {
    var width := LineLength(message, tab);
    Framed(Repeat('-', width), Spacer(width, tab),
      Middle(ContentRows(Lines(message), tab, MaxLen(Lines(message)))))
  }

  lemma {:induction false} JoinLinesAppend(a: seq<string>, b: seq<string>)
    requires a != [] && b != []
    ensures JoinLines(a + b) == JoinLines(a) + "\n" + JoinLines(b)
  {
    if |a| > 1 {
      JoinLinesAppend(a[1..], b);
      assert (a + b)[1..] == a[1..] + b;
    } else {
      assert (a + b)[1..] == b;
    }
  }

  lemma FramedJoin(border: string, space: seq<string>, middle: seq<string>)
    requires |space| <= 1 && middle != []
    ensures var spaceLined := if space == [] then "" else space[0] + "\n";
      JoinLines(Framed(border, space, middle))
        == border + "\n" + spaceLined + JoinLines(middle) + "\n" + spaceLined + border
  {
    if space == [] {
      JoinLinesAppend([border], middle);
      JoinLinesAppend([border] + middle, [border]);
      assert Framed(border, space, middle) == [border] + middle + [border];
    } else {
      var s := space[0];
      assert space == [s];
      JoinLinesAppend([border], [s]);
      JoinLinesAppend([border] + [s], middle);
      JoinLinesAppend([border] + [s] + middle, [s]);
      JoinLinesAppend([border] + [s] + middle + [s], [border]);
      SpacedAssoc(border, s, JoinLines(middle));
    }
  }

  lemma SpacedAssoc(b: string, s: string, m: string)
    ensures b + "\n" + s + "\n" + m + "\n" + s + "\n" + b
      == b + "\n" + (s + "\n") + m + "\n" + (s + "\n") + b
  {
  }

  /** Newline-free rows between newline-free borders read back as rows. */
  lemma FramedLines(border: string, space: seq<string>, middle: seq<string>)
    requires |space| <= 1 && middle != [] && border != []
    requires NoNewline(border) && NoNewlines(space) && NoNewlines(middle)
    ensures var spaceLined := if space == [] then "" else space[0] + "\n";
      Lines(border + "\n" + spaceLined + JoinLines(middle) + "\n" + spaceLined + border)
        == Framed(border, space, middle)
  {
    FramedJoin(border, space, middle);
    FramedNoNewlines(border, space, middle);
    LinesOfJoin(Framed(border, space, middle));
  }

  lemma FramedNoNewlines(border: string, space: seq<string>, middle: seq<string>)
    requires NoNewline(border) && NoNewlines(space) && NoNewlines(middle)
    ensures NoNewlines(Framed(border, space, middle))
  {
    var r := Framed(border, space, middle);
    forall k | 0 <= k < |r| ensures NoNewline(r[k]) {
      if k == 0 || k == |r| - 1 {
      } else if k <= |space| {
        assert r[k] == space[k - 1];
      } else if k <= |space| + |middle| {
        assert r[k] == middle[k - 1 - |space|];
      } else {
        assert r[k] == space[k - 1 - |space| - |middle|];
      }
    }
  }

  lemma ConcatNoNewline(a: string, b: string)
    requires NoNewline(a) && NoNewline(b)
    ensures NoNewline(a + b)
  {
    forall i | 0 <= i < |a + b| ensures (a + b)[i] != '\n' {
      if i >= |a| {
        assert (a + b)[i] == b[i - |a|];
      }
    }
  }

  lemma ContentRowShape(l: string, tab: nat, maxLen: nat)
    requires NoNewline(l) && |l| <= maxLen
    ensures NoNewline(ContentRow(l, tab, maxLen))
    ensures |ContentRow(l, tab, maxLen)| == 2 + 2 * tab + maxLen
  {
    var spaces := Repeat(' ', tab);
    if |l| < maxLen {
      ConcatNoNewline(l, Repeat(' ', maxLen - |l|));
    }
    ConcatNoNewline("|", spaces);
    ConcatNoNewline("|" + spaces, PadRight(l, maxLen));
    ConcatNoNewline("|" + spaces + PadRight(l, maxLen), spaces);
    ConcatNoNewline("|" + spaces + PadRight(l, maxLen) + spaces, "|");
  }

  lemma ContentRowsShape(lines: seq<string>, tab: nat, maxLen: nat)
    requires NoNewlines(lines) && forall k :: 0 <= k < |lines| ==> |lines[k]| <= maxLen
    ensures NoNewlines(ContentRows(lines, tab, maxLen))
    ensures forall k :: 0 <= k < |lines| ==> |ContentRows(lines, tab, maxLen)[k]| == 2 + 2 * tab + maxLen
  {
    var rows := ContentRows(lines, tab, maxLen);
    forall k | 0 <= k < |lines|
      ensures NoNewline(rows[k]) && |rows[k]| == 2 + 2 * tab + maxLen
    {
      ContentRowShape(lines[k], tab, maxLen);
    }
  }

  /** The box text is its rows, one per line. */
  lemma BoxLines(message: string, tab: nat)
    ensures Lines(BoxString(message, tab)) == BoxRows(message, tab)
  {
    var lines := Lines(message);
    var width := LineLength(message, tab);
    var rows := ContentRows(lines, tab, MaxLen(lines));
    ContentRowsShape(lines, tab, MaxLen(lines));
    SpacerShape(width, tab);
    assert JoinLines(Middle(rows)) == JoinLines(rows);
    FramedLines(Repeat('-', width), Spacer(width, tab), Middle(rows));
  }

  lemma SpacerShape(width: nat, tab: nat)
    requires width >= 2
    ensures NoNewlines(Spacer(width, tab))
    ensures forall k :: 0 <= k < |Spacer(width, tab)| ==> |Spacer(width, tab)[k]| == width
    ensures Spacer(width, tab) != [] <==> tab > 0
    ensures tab > 0 ==> Spacer(width, tab)[0] == "|" + Repeat(' ', width - 2) + "|"
  {
    ConcatNoNewline("|", Repeat(' ', width - 2));
    ConcatNoNewline("|" + Repeat(' ', width - 2), "|");
  }

  /** Every line of a box with some content has the box's line length. */
  lemma BoxWidth(message: string, tab: nat)
    requires Lines(message) != []
    ensures forall k :: 0 <= k < |BoxRows(message, tab)| ==>
      |BoxRows(message, tab)[k]| == LineLength(message, tab)
  {
    var lines := Lines(message);
    var width := LineLength(message, tab);
    var rows := ContentRows(lines, tab, MaxLen(lines));
    ContentRowsShape(lines, tab, MaxLen(lines));
    SpacerShape(width, tab);
    assert Middle(rows) == rows;
    FramedWidth(Repeat('-', width), Spacer(width, tab), Middle(rows), width);
  }

  lemma FramedWidth(border: string, space: seq<string>, middle: seq<string>, w: nat)
    requires |border| == w
    requires forall k :: 0 <= k < |space| ==> |space[k]| == w
    requires forall k :: 0 <= k < |middle| ==> |middle[k]| == w
    ensures forall k :: 0 <= k < |Framed(border, space, middle)| ==> |Framed(border, space, middle)[k]| == w
  {
    var r := Framed(border, space, middle);
    forall k | 0 <= k < |r| ensures |r[k]| == w {
      if k == 0 || k == |r| - 1 {
      } else if k <= |space| {
        assert r[k] == space[k - 1];
      } else if k <= |space| + |middle| {
        assert r[k] == middle[k - 1 - |space|];
      } else {
        assert r[k] == space[k - 1 - |space| - |middle|];
      }
    }
  }

  /** The number of lines of each source. */
  function LineCounts(src: seq<string>): (r: seq<nat>)
    ensures |r| == |src|
    ensures forall k :: 0 <= k < |src| ==> r[k] == |Lines(src[k])|
  {
    seq(|src|, k requires 0 <= k < |src| => |Lines(src[k])|)
  }

  /** The most lines any source has (`max_by` on the line counts); 0 for
      no source. */
  function MaxLineCount(src: seq<string>): (r: nat)
    ensures forall k :: 0 <= k < |src| ==> |Lines(src[k])| <= r
    ensures src == [] ==> r == 0
    ensures src != [] ==> exists k :: 0 <= k < |src| && |Lines(src[k])| == r
  {
    var counts := LineCounts(src);
    if src == [] then 0
    else
      var r := Largest(counts);
      assert forall k :: 0 <= k < |src| ==> counts[k] <= r;
      r
  }

  /** Line `j` of one source padded to its widest line, or blanks of that
      width when the source has fewer lines. */
  function Cell(source: string, j: nat): string {
    var lines := Lines(source);
    if j < |lines| then PadRight(lines[j], MaxLen(lines)) else Repeat(' ', MaxLen(lines))
  }

  /** Row `j` of the side-by-side text: each source's cell followed by the
      gap. */
  function FlatRow(src: seq<string>, gapSize: nat, j: nat): string {
    if src == [] then []
    else FlatRow(src[..|src| - 1], gapSize, j) + Cell(src[|src| - 1], j) + Repeat(' ', gapSize)
  }

  /** Rows each followed by a newline. */
  function Unlines(rows: seq<string>): string {
    if rows == [] then [] else Unlines(rows[..|rows| - 1]) + rows[|rows| - 1] + "\n"
  }

  function FlatRows(src: seq<string>, gapSize: nat): (r: seq<string>)
    ensures |r| == MaxLineCount(src)
  {
    seq(MaxLineCount(src), j requires 0 <= j < MaxLineCount(src) => FlatRow(src, gapSize, j))
  }

  /** The total width of the sources' widest lines and their gaps. */
  function RowWidth(src: seq<string>, gapSize: nat): nat {
    if src == [] then 0 else RowWidth(src[..|src| - 1], gapSize) + MaxLen(Lines(src[|src| - 1])) + gapSize
  }

  /** Every row has the same width: each source takes its widest line's
      width plus the gap, whether or not it has a line there. */
  lemma {:induction false} FlatRowWidth(src: seq<string>, gapSize: nat, j: nat)
    ensures |FlatRow(src, gapSize, j)| == RowWidth(src, gapSize)
  {
    if src != [] {
      FlatRowWidth(src[..|src| - 1], gapSize, j);
      var lines := Lines(src[|src| - 1]);
      if j < |lines| {
        assert |lines[j]| <= MaxLen(lines);
      }
    }
  }

  lemma CellNoNewline(source: string, j: nat)
    ensures NoNewline(Cell(source, j))
  {
    var lines := Lines(source);
    if j < |lines| && |lines[j]| < MaxLen(lines) {
      ConcatNoNewline(lines[j], Repeat(' ', MaxLen(lines) - |lines[j]|));
    }
  }

  lemma {:induction false} FlatRowNoNewline(src: seq<string>, gapSize: nat, j: nat)
    ensures NoNewline(FlatRow(src, gapSize, j))
  {
    if src != [] {
      var n := |src| - 1;
      FlatRowNoNewline(src[..n], gapSize, j);
      CellNoNewline(src[n], j);
      ConcatNoNewline(FlatRow(src[..n], gapSize, j), Cell(src[n], j));
      ConcatNoNewline(FlatRow(src[..n], gapSize, j) + Cell(src[n], j), Repeat(' ', gapSize));
    }
  }

  lemma {:induction false} UnlinesJoin(rows: seq<string>)
    requires rows != []
    ensures Unlines(rows) == JoinLines(rows) + "\n"
  {
    var n := |rows| - 1;
    if n > 0 {
      UnlinesJoin(rows[..n]);
      JoinLinesAppend(rows[..n], [rows[n]]);
      assert rows[..n] + [rows[n]] == rows;
    } else {
      assert Unlines(rows) == Unlines(rows[..0]) + rows[0] + "\n";
      assert rows[..0] == [];
    }
  }

  /** Newline-terminated rows read back as the rows. */
  lemma UnlinesLines(rows: seq<string>)
    requires NoNewlines(rows)
    ensures Lines(Unlines(rows)) == rows
  {
    if rows == [] {
      LinesOfJoin([]);
      assert Unlines(rows) == JoinLines([]);
    } else {
      var padded := rows + [""];
      UnlinesJoin(rows);
      JoinLinesAppend(rows, [""]);
      assert Unlines(rows) == JoinLines(padded);
      assert NoNewlines(padded);
      LinesOfJoin(padded);
      assert padded[..|rows|] == rows;
    }
  }

  /** Before the final trim the text holds one line per row: as many lines as
      the longest source has, each of them newline-free. */
  lemma FlattenRowCount(src: seq<string>, gapSize: nat)
    ensures Lines(Unlines(FlatRows(src, gapSize))) == FlatRows(src, gapSize)
    ensures |Lines(Unlines(FlatRows(src, gapSize)))| == MaxLineCount(src)
  {
    var rows := FlatRows(src, gapSize);
    forall k | 0 <= k < |rows| ensures NoNewline(rows[k]) {
      FlatRowNoNewline(src, gapSize, k);
    }
    UnlinesLines(rows);
  }

  lemma FlatRowStep(src: seq<string>, gapSize: nat, j: nat, k: nat)
    requires k < |src|
    ensures FlatRow(src[..k + 1], gapSize, j) == FlatRow(src[..k], gapSize, j) + Cell(src[k], j) + Repeat(' ', gapSize)
  {
    assert src[..k + 1][..k] == src[..k];
  }

  lemma UnlinesStep(rows: seq<string>, k: nat)
    requires k < |rows|
    ensures Unlines(rows[..k + 1]) == Unlines(rows[..k]) + rows[k] + "\n"
  {
    assert rows[..k + 1][..k] == rows[..k];
  }

  /** One source's contribution to a line: its line at `lineIndex` padded to
      its widest line, or that many spaces when it has no such line. */
  method SourceCell(source: string, lineIndex: nat) returns (line: string)
    ensures line == Cell(source, lineIndex)
  {
    var elementLines := Lines(source);
    var maxLineSize := MaxLen(elementLines);
    if lineIndex < |elementLines| {
      line := PadRight(elementLines[lineIndex], maxLineSize);
    } else {
      line := Repeat(' ', maxLineSize);
    }
  }

  lemma AppendAssoc(a: string, b: string, c: string, d: string)
    ensures a + b + c + d == a + (b + c + d)
  {
  }

  /** `flatten_line`: for each line index up to the most lines of any
      source, each source's cell and the gap, then a newline; the whole
      text is trimmed at the end. */
  method FlattenLine(src: seq<string>, gapSize: nat) returns (r: string)
    ensures r == Trim(Unlines(FlatRows(src, gapSize)))
  {
    var maxLines := MaxLineCount(src);
    ghost var rows := FlatRows(src, gapSize);
    var lines: string := [];
    for lineIndex := 0 to maxLines
      invariant lines == Unlines(rows[..lineIndex])
    {
      lines := AppendRow(lines, src, gapSize, lineIndex);
      UnlinesStep(rows, lineIndex);
      lines := lines + "\n";
    }
    assert rows[..maxLines] == rows;
    r := Trim(lines);
  }

  /** The inner loop of `flatten_line`: each source's cell and the gap,
      appended to the text so far. */
  method AppendRow(lines0: string, src: seq<string>, gapSize: nat, lineIndex: nat) returns (lines: string)
    ensures lines == lines0 + FlatRow(src, gapSize, lineIndex)
  {
    lines := lines0;
    for k := 0 to |src|
      invariant lines == lines0 + FlatRow(src[..k], gapSize, lineIndex)
    {
      var line := SourceCell(src[k], lineIndex);
      FlatRowStep(src, gapSize, lineIndex, k);
      AppendAssoc(lines0, FlatRow(src[..k], gapSize, lineIndex), line, Repeat(' ', gapSize));
      lines := lines + line;
      lines := lines + Repeat(' ', gapSize);
    }
    assert src[..|src|] == src;
  }

  /** The tab of every box: the tab rule applied to `count_by`. */
  function Tabs(vertices: map<nat, seq<nat>>, edges: seq<string>, cs: nat): seq<nat> {
    seq(|edges|, i requires 0 <= i < |edges| => TabSize(CountBy(vertices, i), edges[i], cs))
  }

  /** The widths the boxes take in the pane: `boxes_length`. */
  function BoxLengths(vertices: map<nat, seq<nat>>, edges: seq<string>, cs: nat): seq<nat> {
    var tabs := Tabs(vertices, edges, cs);
    seq(|edges|, i requires 0 <= i < |edges| => LineLength(edges[i], tabs[i]))
  }

  /** The rendered boxes: `str_boxes`. */
  function BoxTexts(vertices: map<nat, seq<nat>>, edges: seq<string>, cs: nat): seq<string> {
    var tabs := Tabs(vertices, edges, cs);
    seq(|edges|, i requires 0 <= i < |edges| => BoxString(edges[i], tabs[i]))
  }

  /** The links of one box, in list order. */
  function Pairs(k: nat, friends: seq<nat>): (r: seq<(nat, nat)>)
    ensures |r| == |friends|
    ensures forall j :: 0 <= j < |friends| ==> r[j] == (k, friends[j])
  {
    seq(|friends|, j requires 0 <= j < |friends| => (k, friends[j]))
  }

  /** Every link as a pair, keys in increasing order and each key's list in
      order: the order in which `fmt` connects them. */
  function ConnectionList(vertices: map<nat, seq<nat>>): seq<(nat, nat)>
    decreases |vertices|
  {
    if vertices == map[] then []
    else
      var k := MinKey(vertices.Keys);
      Pairs(k, vertices[k]) + ConnectionList(vertices - {k})
  }

  /** The pane's list after connecting `list` one pair at a time. */
  function InsertAll(list: seq<(nat, nat)>): (r: seq<(nat, nat)>)
    ensures Sorted(r)
    ensures multiset(r) == multiset(list)
  {
    if list == [] then []
    else
      var n := |list| - 1;
      assert list == list[..n] + [list[n]];
      Insert(InsertAll(list[..n]), list[n])
  }

  lemma InsertAllStep(list: seq<(nat, nat)>, x: (nat, nat))
    ensures InsertAll(list + [x]) == Insert(InsertAll(list), x)
  {
    assert (list + [x])[..|list|] == list;
  }

  /** The loops of `fmt` over the map: each key in increasing order, each
      of its links in list order. */
  method ConnectAll(pane: ConnectedPane, vertices: map<nat, seq<nat>>)
    requires pane.Valid() && pane.connectedList == []
    modifies pane
    ensures pane.Valid() && pane.connectedList == InsertAll(ConnectionList(vertices))
  {
    var remaining := vertices;
    ghost var done: seq<(nat, nat)> := [];
    while remaining != map[]
      invariant ConnectionList(vertices) == done + ConnectionList(remaining)
      invariant pane.Valid() && pane.connectedList == InsertAll(done)
      decreases |remaining|
    {
      var node := MinKey(remaining.Keys);
      var friends := remaining[node];
      ConnectionListStep(done, remaining);
      ConnectFriends(pane, done, node, friends);
      done := done + Pairs(node, friends);
      remaining := remaining - {node};
    }
    assert done == ConnectionList(vertices);
  }

  lemma ConnectionListStep(done: seq<(nat, nat)>, remaining: map<nat, seq<nat>>)
    requires remaining != map[]
    ensures var k := MinKey(remaining.Keys);
      done + ConnectionList(remaining) == (done + Pairs(k, remaining[k])) + ConnectionList(remaining - {k})
      && |remaining - {k}| < |remaining|
  {
  }

  /** The inner loop of `fmt`: every link of one box, in list order. */
  method ConnectFriends(pane: ConnectedPane, ghost done: seq<(nat, nat)>, node: nat, friends: seq<nat>)
    requires pane.Valid() && pane.connectedList == InsertAll(done)
    modifies pane
    ensures pane.Valid() && pane.connectedList == InsertAll(done + Pairs(node, friends))
  {
    assert done + Pairs(node, friends[..0]) == done;
    for j := 0 to |friends|
      invariant pane.Valid() && pane.connectedList == InsertAll(done + Pairs(node, friends[..j]))
    {
      PairsStep(done, node, friends, j);
      InsertAllStep(done + Pairs(node, friends[..j]), (node, friends[j]));
      pane.Connect(node, friends[j]);
    }
    assert friends[..|friends|] == friends;
  }

  lemma PairsStep(done: seq<(nat, nat)>, node: nat, friends: seq<nat>, j: nat)
    requires j < |friends|
    ensures done + Pairs(node, friends[..j + 1]) == done + Pairs(node, friends[..j]) + [(node, friends[j])]
  {
    assert Pairs(node, friends[..j + 1]) == Pairs(node, friends[..j]) + [(node, friends[j])];
  }

  /** The number of link ends at `v`: its own links plus its occurrences. */
  function Uses(vertices: map<nat, seq<nat>>, v: nat): nat {
    |ListOf(vertices, v)| + InDegree(vertices, v)
  }

  lemma {:induction false} CountConcat(a: seq<nat>, b: seq<nat>, v: nat)
    ensures Count(a + b, v) == Count(a, v) + Count(b, v)
  {
    if b != [] {
      var n := |b| - 1;
      CountConcat(a, b[..n], v);
      assert a + b == (a + b[..n]) + [b[n]];
      assert b == b[..n] + [b[n]];
      CountAppend(a + b[..n], b[n], v);
      CountAppend(b[..n], b[n], v);
    } else {
      assert a + b == a;
    }
  }

  lemma {:induction false} EndpointsConcat(a: seq<(nat, nat)>, b: seq<(nat, nat)>)
    ensures Endpoints(a + b) == Endpoints(a) + Endpoints(b)
  {
    if b != [] {
      var n := |b| - 1;
      var x := b[n];
      EndpointsConcat(a, b[..n]);
      assert (a + b)[..|a + b| - 1] == a + b[..n];
      assert (a + b)[|a + b| - 1] == x;
      assert Endpoints(a + b) == Endpoints(a) + Endpoints(b[..n]) + [x.0, x.1];
      assert Endpoints(b) == Endpoints(b[..n]) + [x.0, x.1];
    } else {
      assert a + b == a;
    }
  }

  /** The ends of one pair. */
  lemma EndpointsCount(list: seq<(nat, nat)>, x: (nat, nat), v: nat)
    ensures Count(Endpoints(list + [x]), v) ==
      Count(Endpoints(list), v) + (if x.0 == v then 1 else 0) + (if x.1 == v then 1 else 0)
  {
    assert (list + [x])[..|list|] == list;
    CountConcat(Endpoints(list), [x.0, x.1], v);
    assert [x.0, x.1] == [x.0] + [x.1];
    CountConcat([x.0], [x.1], v);
  }

  /** The ends of one box's links at `v`: all of them when it is `v`'s own
      list, and the occurrences of `v` in the list. */
  lemma {:induction false} PairsUses(k: nat, friends: seq<nat>, v: nat)
    ensures Count(Endpoints(Pairs(k, friends)), v) ==
      (if k == v then |friends| else 0) + Count(friends, v)
  {
    if friends != [] {
      var n := |friends| - 1;
      PairsUses(k, friends[..n], v);
      assert Pairs(k, friends) == Pairs(k, friends[..n]) + [(k, friends[n])];
      EndpointsCount(Pairs(k, friends[..n]), (k, friends[n]), v);
    }
  }

  /** Connecting every link puts `Uses` link ends on each box. */
  lemma {:induction false} ConnectionListUses(vertices: map<nat, seq<nat>>, v: nat)
    ensures Count(Endpoints(ConnectionList(vertices)), v) == Uses(vertices, v)
    decreases |vertices|
  {
    if vertices != map[] {
      var k := MinKey(vertices.Keys);
      var rest := vertices - {k};
      ConnectionListUses(rest, v);
      EndpointsConcat(Pairs(k, vertices[k]), ConnectionList(rest));
      CountConcat(Endpoints(Pairs(k, vertices[k])), Endpoints(ConnectionList(rest)), v);
      PairsUses(k, vertices[k], v);
    }
  }

  /** Reordering the pairs does not change how many ends fall on `v`. */
  lemma {:induction false} PermutedUses(a: seq<(nat, nat)>, b: seq<(nat, nat)>, v: nat)
    requires multiset(a) == multiset(b)
    ensures Count(Endpoints(a), v) == Count(Endpoints(b), v)
    decreases |a|
  {
    if a != [] {
      var n := |a| - 1;
      var x := a[n];
      assert x in multiset(b);
      var i :| 0 <= i < |b| && b[i] == x;
      MultisetRemove(a, b, i);
      PermutedUses(a[..n], b[..i] + b[i + 1..], v);
      assert a == a[..n] + [x];
      EndpointsCount(a[..n], x, v);
      EndpointsRemove(b, i, v);
    }
  }

  /** Taking the last pair off `a` and a matching pair out of `b` keeps the
      two lists permutations of each other. */
  lemma MultisetRemove(a: seq<(nat, nat)>, b: seq<(nat, nat)>, i: nat)
    requires multiset(a) == multiset(b) && a != [] && i < |b| && b[i] == a[|a| - 1]
    ensures multiset(a[..|a| - 1]) == multiset(b[..i] + b[i + 1..])
  {
    var n := |a| - 1;
    assert a == a[..n] + [a[n]];
    assert b == b[..i] + [b[i]] + b[i + 1..];
    assert multiset(a) == multiset(a[..n]) + multiset{a[n]};
    assert multiset(b) == multiset(b[..i]) + multiset{b[i]} + multiset(b[i + 1..]);
    assert multiset(b[..i] + b[i + 1..]) == multiset(b[..i]) + multiset(b[i + 1..]);
    forall o ensures multiset(a[..n])[o] == multiset(b[..i] + b[i + 1..])[o] {
      assert multiset(a)[o] == multiset(b)[o];
    }
  }

  /** The ends of the pair at `i` count once each in the endpoint list. */
  lemma EndpointsRemove(b: seq<(nat, nat)>, i: nat, v: nat)
    requires i < |b|
    ensures Count(Endpoints(b), v) ==
      Count(Endpoints(b[..i] + b[i + 1..]), v) + (if b[i].0 == v then 1 else 0) + (if b[i].1 == v then 1 else 0)
  {
    var x := b[i];
    assert b == (b[..i] + [x]) + b[i + 1..];
    EndpointsConcat(b[..i] + [x], b[i + 1..]);
    EndpointsConcat(b[..i], b[i + 1..]);
    EndpointsCount(b[..i], x, v);
    CountConcat(Endpoints(b[..i] + [x]), Endpoints(b[i + 1..]), v);
    CountConcat(Endpoints(b[..i]), Endpoints(b[i + 1..]), v);
  }

  /** On a closed map the link ends at a box are what `count_by` counts. */
  lemma UsesCountBy(vertices: map<nat, seq<nat>>, v: nat)
    requires Closed(vertices)
    ensures Uses(vertices, v) == CountBy(vertices, v)
  {
    if v !in vertices {
      InDegreeZero(vertices, v);
    }
  }

  /** Every box ends inside the width `ConnectedPane::size` gives. */
  lemma {:induction false} BoxEndInside(concept: seq<nat>, gap: nat, v: nat)
    requires v < |concept|
    ensures StartElementIndex(concept, gap, v) + concept[v] <= PaneWidth(concept, gap)
    decreases |concept| - v
  {
    if v == |concept| - 1 {
      WidthIsLastBoxEnd(concept, gap);
    } else {
      StartElementIndexStep(concept, gap, v);
      BoxEndInside(concept, gap, v + 1);
    }
  }

  /** What `fmt` needs of the graph: every listed index is a key and every
      key is a box. */
  ghost predicate Drawable(vertices: map<nat, seq<nat>>, edges: seq<string>) {
    Closed(vertices) && forall k :: k in vertices ==> k < |edges|
  }

  /** The `p`-th link end lies inside its box: the tab rule leaves room for
      every link end of the box, one connection size apart. */
  lemma EndColumnInside(vertices: map<nat, seq<nat>>, edges: seq<string>, settings: PaneSettings,
                        list: seq<(nat, nat)>, p: nat)
    requires Drawable(vertices, edges)
    requires multiset(list) == multiset(ConnectionList(vertices))
    requires p < 2 * |list|
    ensures var concept := BoxLengths(vertices, edges, settings.connectionSize);
      Endpoints(list)[p] < |edges| &&
      EndColumn(concept, settings, list, p) <
        StartElementIndex(concept, settings.gapSize, Endpoints(list)[p]) + concept[Endpoints(list)[p]]
  {
    var concept := BoxLengths(vertices, edges, settings.connectionSize);
    var e := Endpoints(list);
    var v := e[p];
    var cs := settings.connectionSize;
    var used := Count(e[..p], v);
    assert e[..|e|] == e;
    CountGrows(e, p, |e|);
    PermutedUses(list, ConnectionList(vertices), v);
    ConnectionListUses(vertices, v);
    UsesCountBy(vertices, v);
    var count := CountBy(vertices, v);
    assert v in vertices;
    var len := LineLength(edges[v], TabSize(count, edges[v], cs));
    assert concept[v] == len;
    if cs >= 1 {
      BoxHoldsConnections(count, edges[v], cs);
    }
    OffsetInside(used, count, cs, len);
  }

  /** A use before the last of `count` ones, at one connection size per use,
      stays inside a box that holds all of them. */
  lemma OffsetInside(used: nat, count: nat, cs: nat, len: nat)
    requires used + 1 <= count && len >= 1
    requires cs >= 1 ==> (count - 1) * cs + 1 <= len
    ensures used * cs < len
  {
    if cs >= 1 {
      MulMonotone(used, count - 1, cs);
    }
  }

  /** Every connection `fmt` draws lies inside the pane, so none of its
      `put` calls writes out of bounds. */
  lemma DisplayColumnsFit(vertices: map<nat, seq<nat>>, edges: seq<string>, settings: PaneSettings,
                          list: seq<(nat, nat)>)
    requires Drawable(vertices, edges) && |edges| >= 1
    requires multiset(list) == multiset(ConnectionList(vertices))
    ensures var concept := BoxLengths(vertices, edges, settings.connectionSize);
      ColumnsFit(Layout(concept, settings, list), PaneWidth(concept, settings.gapSize))
  {
    var concept := BoxLengths(vertices, edges, settings.connectionSize);
    var width := PaneWidth(concept, settings.gapSize);
    forall k | 0 <= k < |list|
      ensures Layout(concept, settings, list)[k].lhs.x < width
      ensures Layout(concept, settings, list)[k].rhs.x < width
    {
      LayoutColumns(concept, settings, list, k);
      ColumnInside(vertices, edges, settings, list, 2 * k);
      ColumnInside(vertices, edges, settings, list, 2 * k + 1);
    }
  }

  lemma ColumnInside(vertices: map<nat, seq<nat>>, edges: seq<string>, settings: PaneSettings,
                     list: seq<(nat, nat)>, p: nat)
    requires Drawable(vertices, edges) && |edges| >= 1
    requires multiset(list) == multiset(ConnectionList(vertices))
    requires p < 2 * |list|
    ensures var concept := BoxLengths(vertices, edges, settings.connectionSize);
      EndColumn(concept, settings, list, p) < PaneWidth(concept, settings.gapSize)
  {
    var concept := BoxLengths(vertices, edges, settings.connectionSize);
    EndColumnInside(vertices, edges, settings, list, p);
    BoxEndInside(concept, settings.gapSize, Endpoints(list)[p]);
  }

  /** The width `ConnectedPane::size` gives: the boxes and the gaps between
      them. */
  function PaneWidth(concept: seq<nat>, gap: nat): nat
    requires |concept| >= 1
  {
    Sum(concept) + (|concept| - 1) * gap
  }

  /** The pane `ConnectedPane::pane` draws for `list`. */
  function PaneGrid(concept: seq<nat>, settings: PaneSettings, list: seq<(nat, nat)>): Canvas.Grid
    requires |concept| >= 1
  {
    var height := |list| * 2;
    Canvas.PaintAll(Canvas.Blank(PaneWidth(concept, settings.gapSize), height),
      Strokes(Layout(concept, settings, list), height, Connector(settings.connectionType)))
  }

  /** What `fmt` writes: the pane with every link drawn, a newline, then the
      boxes side by side. */
  function DisplayText(vertices: map<nat, seq<nat>>, edges: seq<string>, settings: PaneSettings): string
    requires |edges| >= 1
  {
    var cs := settings.connectionSize;
    JoinLines(PaneGrid(BoxLengths(vertices, edges, cs), settings, InsertAll(ConnectionList(vertices))))
      + "\n" + Trim(Unlines(FlatRows(BoxTexts(vertices, edges, cs), settings.gapSize)))
  }
}
