/** `ConnectedPane` of src/pane/pane.rs: boxes of given widths side by side,
    and a sorted list of (from, to) connections drawn above them, one
    connection per two rows. `Render` is proved against the pure `Layout`
    (where each connection's connector columns go) and `Strokes` (what is
    drawn, in order); the lemmas say what the picture then shows. */
module Connected {
  import opened Text
  import opened Canvas

  datatype ConnectorType = General | Arrow

  datatype PaneSettings = PaneSettings(gapSize: nat, connectionSize: nat, connectionType: ConnectorType)

  /** `ConnectedPane::connector`: the glyph marking a connection's target. */
  function Connector(ct: ConnectorType): char {
    match ct
    case General => '|'
    case Arrow => 'v'
  }

  /** `ConnectedPane::start_element_index`: the first column of box `i`, the
      widths of the boxes before it plus one gap per box; `take(i)` takes at
      most all the boxes. */
  function StartElementIndex(concept: seq<nat>, gap: nat, i: nat): nat {
    Sum(concept[..Min(i, |concept|)]) + i * gap
  }

  /** Box `i + 1` starts a gap after box `i` ends. */
  lemma StartElementIndexStep(concept: seq<nat>, gap: nat, i: nat)
    requires i < |concept|
    ensures StartElementIndex(concept, gap, i + 1) == StartElementIndex(concept, gap, i) + concept[i] + gap
  {
    assert concept[..i + 1][..i] == concept[..i];
  }

  /** The width `size` gives is exactly where the last box ends. */
  lemma WidthIsLastBoxEnd(concept: seq<nat>, gap: nat)
    requires |concept| >= 1
    ensures Sum(concept) + (|concept| - 1) * gap ==
      StartElementIndex(concept, gap, |concept| - 1) + concept[|concept| - 1]
  {
    var n := |concept| - 1;
    assert concept[..n + 1] == concept;
    assert concept[..n] == concept[..n + 1][..n];
  }

  /** Lexicographic order on connections, as `Vec::sort` uses it. */
  predicate PairLe(a: (nat, nat), b: (nat, nat)) {
    a.0 < b.0 || (a.0 == b.0 && a.1 <= b.1)
  }

  predicate Sorted(s: seq<(nat, nat)>) {
    forall i, j :: 0 <= i < j < |s| ==> PairLe(s[i], s[j])
  }

  /** `push` then `sort` on an already sorted list: the pair goes in front of
      the first element above it. */
  function Insert(s: seq<(nat, nat)>, p: (nat, nat)): (r: seq<(nat, nat)>)
    requires Sorted(s)
    ensures Sorted(r)
    ensures multiset(r) == multiset(s) + multiset{p}
    ensures |r| == |s| + 1
    ensures r[0] == p || (s != [] && r[0] == s[0])
  {
    if s == [] then [p]
    else if PairLe(p, s[0]) then [p] + s
    else
      SplitHead(s);
      var t := Insert(s[1..], p);
      InsertCons(s, p, t);
      [s[0]] + t
  }

  /** The pair goes after the head: the head stays first. */
  lemma InsertCons(s: seq<(nat, nat)>, p: (nat, nat), t: seq<(nat, nat)>)
    requires Sorted(s) && s != [] && !PairLe(p, s[0])
    requires Sorted(t) && multiset(t) == multiset(s[1..]) + multiset{p} && |t| == |s|
    requires t[0] == p || (s[1..] != [] && t[0] == s[1..][0])
    ensures Sorted([s[0]] + t)
    ensures multiset([s[0]] + t) == multiset(s) + multiset{p}
  {
    assert s == [s[0]] + s[1..];
    assert PairLe(s[0], t[0]) by {
      if t[0] != p {
        assert t[0] == s[1];
      }
    }
    SortedCons(s[0], t);
  }

  lemma SortedCons(x: (nat, nat), t: seq<(nat, nat)>)
    requires Sorted(t) && (t != [] ==> PairLe(x, t[0]))
    ensures Sorted([x] + t)
  {
    var r := [x] + t;
    forall i, j | 0 <= i < j < |r| ensures PairLe(r[i], r[j]) {
      if i == 0 && j > 1 {
        assert PairLe(t[0], t[j - 1]);
      }
    }
  }

  /** A sorted list is determined by its elements: so inserting gives exactly
      what `sort` gives, whatever algorithm `sort` uses. */
  lemma {:induction false} SortedUnique(a: seq<(nat, nat)>, b: seq<(nat, nat)>)
    requires Sorted(a) && Sorted(b) && multiset(a) == multiset(b)
    ensures a == b
  {
    if a != [] {
      SameHead(a, b);
      SplitHead(a);
      SplitHead(b);
      SortedUnique(a[1..], b[1..]);
      assert a == [a[0]] + a[1..] && b == [b[0]] + b[1..];
    }
  }

  /** Two sorted lists with the same elements start alike. */
  lemma SameHead(a: seq<(nat, nat)>, b: seq<(nat, nat)>)
    requires Sorted(a) && Sorted(b) && multiset(a) == multiset(b) && a != []
    ensures b != [] && a[0] == b[0]
  {
    assert a[0] in multiset(a);
    assert b != [] && b[0] in multiset(b);
    var i :| 0 <= i < |b| && b[i] == a[0];
    var j :| 0 <= j < |a| && a[j] == b[0];
    assert PairLe(a[0], a[j]) && PairLe(b[0], b[i]);
  }

  /** The tail of a sorted list is sorted and holds the other elements. */
  lemma SplitHead(a: seq<(nat, nat)>)
    requires Sorted(a) && a != []
    ensures Sorted(a[1..])
    ensures multiset(a[1..]) == multiset(a) - multiset{a[0]}
  {
    assert a == [a[0]] + a[1..];
    assert multiset(a) == multiset{a[0]} + multiset(a[1..]);
    forall i, j | 0 <= i < j < |a[1..]| ensures PairLe(a[1..][i], a[1..][j]) {
      assert a[1..][i] == a[i + 1] && a[1..][j] == a[j + 1];
    }
  }

  /** How often `v` occurs in `s`. */
  function Count(s: seq<nat>, v: nat): nat {
    if s == [] then 0 else Count(s[..|s| - 1], v) + (if s[|s| - 1] == v then 1 else 0)
  }

  /** The endpoints of the connections in processing order: each connection's
      `from` before its `to`. */
  function Endpoints(list: seq<(nat, nat)>): (e: seq<nat>)
    ensures |e| == 2 * |list|
  {
    if list == [] then []
    else Endpoints(list[..|list| - 1]) + [list[|list| - 1].0, list[|list| - 1].1]
  }

  /** Where one connection is drawn: `lhs`/`rhs` are its connector points on
      the lower of its two rows, `from`/`to` the ends of its `'-'` run on the
      upper row. */
  datatype LineCoordinate = LineCoordinate(from: Point, to: Point, lhs: Point, rhs: Point)

  /** The coordinates of connection `c` at level `level`, after the endpoint
      uses in `prior`: a node used `j` times before sits `j` connection sizes
      right of its box's start. */
  function CoordinateOf(concept: seq<nat>, settings: PaneSettings, prior: seq<nat>, c: (nat, nat), level: nat): LineCoordinate
  {
    var fromDiff := Count(prior, c.0) * settings.connectionSize;
    var toDiff := Count(prior + [c.0], c.1) * settings.connectionSize;
    var lhs := Point(StartElementIndex(concept, settings.gapSize, c.0) + fromDiff, level + 1);
    var rhs := Point(StartElementIndex(concept, settings.gapSize, c.1) + toDiff, level + 1);
    if lhs.x > rhs.x then LineCoordinate(Point(lhs.x, level), Point(rhs.x + 1, level), lhs, rhs)
    else LineCoordinate(Point(lhs.x + 1, level), Point(rhs.x, level), lhs, rhs)
  }

  /** The coordinates of every connection, in list order. */
  function Layout(concept: seq<nat>, settings: PaneSettings, list: seq<(nat, nat)>): (r: seq<LineCoordinate>)
    ensures |r| == |list|
  {
    if list == [] then []
    else
      var n := |list| - 1;
      Layout(concept, settings, list[..n]) + [CoordinateOf(concept, settings, Endpoints(list[..n]), list[n], 2 * n)]
  }

  /** The four `put` calls for one connection: the two drops to the floor, the
      connector glyph just above the floor under `rhs`, the `'-'` run. */
  function StrokesOf(c: LineCoordinate, hight: nat, connector: char): seq<Stroke>
    requires hight >= 1
  {
    [ Stroke(Line(c.lhs, Point(c.lhs.x, hight)), '|'),
      Stroke(Line(c.rhs, Point(c.rhs.x, hight)), '|'),
      Stroke(Dot(Point(c.rhs.x, hight - 1)), connector),
      Stroke(Line(c.from, c.to), '-') ]
  }

  function Strokes(coords: seq<LineCoordinate>, hight: nat, connector: char): (r: seq<Stroke>)
    requires coords == [] || hight >= 1
    ensures |r| == 4 * |coords|
  {
    if coords == [] then []
    else Strokes(coords[..|coords| - 1], hight, connector) + StrokesOf(coords[|coords| - 1], hight, connector)
  }

  /** Every connector column lies inside the pane: what `put` needs. */
  predicate ColumnsFit(coords: seq<LineCoordinate>, width: nat) {
    forall k :: 0 <= k < |coords| ==> coords[k].lhs.x < width && coords[k].rhs.x < width
  }

  class ConnectedPane {
    var connectedList: seq<(nat, nat)>
    const concept: seq<nat>
    const settings: PaneSettings

    ghost predicate Valid()
      reads this
    {
      Sorted(connectedList)
    }

    /** `ConnectedPane::new`: no connections yet. */
    constructor (concept: seq<nat>, settings: PaneSettings)
      ensures Valid()
      ensures this.concept == concept && this.settings == settings && connectedList == []
    {
      this.concept := concept;
      this.settings := settings;
      connectedList := [];
    }

    /** `ConnectedPane::connect`: push the pair and sort; the list grows by
        exactly that pair and stays sorted. */
    method Connect(who: nat, to: nat)
      requires Valid()
      modifies this
      ensures Valid()
      ensures connectedList == Insert(old(connectedList), (who, to))
    {
      connectedList := Insert(connectedList, (who, to));
    }

    /** `Surface::size`: the boxes and gaps side by side, two rows per
        connection. With no boxes the source's `len() - 1` underflows. */
    function Size(): (size: (nat, nat))
      reads this
      requires |concept| >= 1
      ensures size.0 == StartElementIndex(concept, settings.gapSize, |concept| - 1) + concept[|concept| - 1]
      ensures size.1 == 2 * |connectedList|
    {
      WidthIsLastBoxEnd(concept, settings.gapSize);
      (Sum(concept) + (|concept| - 1) * settings.gapSize, |connectedList| * 2)
    }

    /** `Surface::pane`: computes every connection's coordinates with a use
        counter per node and a level counter, then draws each connection. */
    method Render() returns (p: Pane)
      requires Valid() && |concept| >= 1
      requires ColumnsFit(Layout(concept, settings, connectedList), Size().0)
      ensures fresh(p) && p.Valid()
      ensures (p.width, p.height) == Size()
      ensures p.surface == PaintAll(Blank(p.width, p.height),
        Strokes(Layout(concept, settings, connectedList), p.height, Connector(settings.connectionType)))
    {
      var size := Size();
      p := new Pane(size.0, size.1);
      var coordinates := Coordinates(concept, settings, connectedList);
      LayoutPlaced(concept, settings, connectedList);
      DrawConnections(p, coordinates, Connector(settings.connectionType));
    }
  }

  /** What the `used` map holds after the endpoint uses in `prior`: a node
      used `n > 0` times maps to `(n - 1)` connection sizes, an unused node
      is absent. */
  ghost predicate UsedAfter(used: map<nat, nat>, prior: seq<nat>, cs: nat) {
    forall v :: (v in used <==> Count(prior, v) > 0) &&
      (v in used ==> used[v] + cs == Count(prior, v) * cs)
  }

  lemma CountAppend(s: seq<nat>, x: nat, v: nat)
    ensures Count(s + [x], v) == Count(s, v) + (if x == v then 1 else 0)
  {
    assert (s + [x])[..|s|] == s;
  }

  /** One use of node `v`: its offset is the number of earlier uses times the
      connection size, and the map records the use. */
  lemma UseNode(used: map<nat, nat>, prior: seq<nat>, v: nat, cs: nat)
    requires UsedAfter(used, prior, cs)
    ensures (if v in used then used[v] + cs else 0) == Count(prior, v) * cs
    ensures UsedAfter(used[v := if v in used then used[v] + cs else 0], prior + [v], cs)
  {
    if v !in used {
      ZeroTimes(Count(prior, v), cs);
    }
    var u := used[v := if v in used then used[v] + cs else 0];
    forall w ensures (w in u <==> Count(prior + [v], w) > 0) &&
      (w in u ==> u[w] + cs == Count(prior + [v], w) * cs)
    {
      UseNodeAt(used, prior, v, cs, w);
    }
  }

  /** The use of `v` as seen from node `w`. */
  lemma UseNodeAt(used: map<nat, nat>, prior: seq<nat>, v: nat, cs: nat, w: nat)
    requires UsedAfter(used, prior, cs)
    ensures var u := used[v := if v in used then used[v] + cs else 0];
      (w in u <==> Count(prior + [v], w) > 0) &&
      (w in u ==> u[w] + cs == Count(prior + [v], w) * cs)
  {
    CountAppend(prior, v, w);
    var n := Count(prior, w);
    assert (w in used <==> n > 0) && (w in used ==> used[w] + cs == n * cs);
    if w == v {
      OneMoreTimes(n, cs);
      if w !in used {
        ZeroTimes(n, cs);
      }
    }
  }

  lemma ZeroTimes(n: nat, cs: nat)
    requires n == 0
    ensures n * cs == 0
  {
  }

  lemma OneMoreTimes(n: nat, cs: nat)
    ensures (n + 1) * cs == n * cs + cs
  {
  }

  /** The first loop of `pane`: the coordinates of each connection, with the
      `used` counter per node (0 at a node's first use, then one connection
      size more per use) and the level advancing by two rows. */
  method Coordinates(concept: seq<nat>, settings: PaneSettings, list: seq<(nat, nat)>)
    returns (coordinates: seq<LineCoordinate>)
    ensures coordinates == Layout(concept, settings, list)
  {
    var cs := settings.connectionSize;
    coordinates := [];
    var used: map<nat, nat> := map[];
    var currentLevel := 0;
    for k := 0 to |list|
      invariant coordinates == Layout(concept, settings, list[..k])
      invariant currentLevel == 2 * k
      invariant UsedAfter(used, Endpoints(list[..k]), cs)
    {
      LayoutStep(concept, settings, list, k);
      var c;
      c, used := Place(concept, settings, used, Endpoints(list[..k]), list[k], currentLevel);
      coordinates := coordinates + [c];
      currentLevel := currentLevel + 2;
    }
    assert list[..|list|] == list;
  }

  /** The body of the first loop of `pane` for one connection: both endpoints
      are used once more (source node first), and the connection's
      coordinates are those `CoordinateOf` gives after the earlier uses. */
  method Place(concept: seq<nat>, settings: PaneSettings, used: map<nat, nat>, ghost prior: seq<nat>,
               link: (nat, nat), currentLevel: nat)
    returns (c: LineCoordinate, used': map<nat, nat>)
    requires UsedAfter(used, prior, settings.connectionSize)
    ensures c == CoordinateOf(concept, settings, prior, link, currentLevel)
    ensures UsedAfter(used', prior + [link.0] + [link.1], settings.connectionSize)
  {
    var cs := settings.connectionSize;
    var (from, to) := link;
    var fromIndex := StartElementIndex(concept, settings.gapSize, from);
    var toIndex := StartElementIndex(concept, settings.gapSize, to);

    UseNode(used, prior, from, cs);
    var fromDiff := if from in used then used[from] + cs else 0;
    used' := used[from := fromDiff];
    UseNode(used', prior + [from], to, cs);
    var toDiff := if to in used' then used'[to] + cs else 0;
    used' := used'[to := toDiff];

    var lhsConnection := Point(fromIndex + fromDiff, currentLevel + 1);
    var rhsConnection := Point(toIndex + toDiff, currentLevel + 1);
    c := if lhsConnection.x > rhsConnection.x then
      LineCoordinate(Point(lhsConnection.x, currentLevel), Point(rhsConnection.x + 1, currentLevel), lhsConnection, rhsConnection)
    else
      LineCoordinate(Point(lhsConnection.x + 1, currentLevel), Point(rhsConnection.x, currentLevel), lhsConnection, rhsConnection);
    CoordinateOfUses(concept, settings, prior, link, currentLevel, lhsConnection, rhsConnection);
  }

  /** `CoordinateOf` from the connector points computed with the use counts. */
  lemma CoordinateOfUses(concept: seq<nat>, settings: PaneSettings, prior: seq<nat>, c: (nat, nat), level: nat,
                         lhs: Point, rhs: Point)
    requires lhs == Point(StartElementIndex(concept, settings.gapSize, c.0) + Count(prior, c.0) * settings.connectionSize, level + 1)
    requires rhs == Point(StartElementIndex(concept, settings.gapSize, c.1) + Count(prior + [c.0], c.1) * settings.connectionSize, level + 1)
    ensures CoordinateOf(concept, settings, prior, c, level) ==
      if lhs.x > rhs.x then LineCoordinate(Point(lhs.x, level), Point(rhs.x + 1, level), lhs, rhs)
      else LineCoordinate(Point(lhs.x + 1, level), Point(rhs.x, level), lhs, rhs)
  {
  }

  /** One more connection: its coordinates follow from the endpoint uses
      before it, and it adds its two endpoints. */
  lemma LayoutStep(concept: seq<nat>, settings: PaneSettings, list: seq<(nat, nat)>, k: nat)
    requires k < |list|
    ensures Layout(concept, settings, list[..k + 1]) ==
      Layout(concept, settings, list[..k]) + [CoordinateOf(concept, settings, Endpoints(list[..k]), list[k], 2 * k)]
    ensures Endpoints(list[..k + 1]) == Endpoints(list[..k]) + [list[k].0] + [list[k].1]
  {
    assert list[..k + 1][..k] == list[..k];
  }

  /** Connection `c` sits at rows `level` (its '-' run) and `level + 1` (its
      connector points), its run reaching from one connector column to the
      other, excluding the column on the left. */
  predicate Placed(c: LineCoordinate, level: nat) {
    c.lhs.y == level + 1 && c.rhs.y == level + 1 && c.from.y == level && c.to.y == level &&
    (c.lhs.x > c.rhs.x ==> c.from.x == c.lhs.x && c.to.x == c.rhs.x + 1) &&
    (c.lhs.x <= c.rhs.x ==> c.from.x == c.lhs.x + 1 && c.to.x == c.rhs.x)
  }

  predicate Placement(coords: seq<LineCoordinate>) {
    forall k :: 0 <= k < |coords| ==> Placed(coords[k], 2 * k)
  }

  /** Connection `k` of the list takes rows `2k` and `2k + 1`. */
  lemma {:induction false} LayoutPlaced(concept: seq<nat>, settings: PaneSettings, list: seq<(nat, nat)>)
    ensures Placement(Layout(concept, settings, list))
  {
    if list != [] {
      var n := |list| - 1;
      LayoutPlaced(concept, settings, list[..n]);
    }
  }

  /** Painting a concatenation paints the first part, then the second. */
  lemma {:induction false} PaintAllAppend(s: Grid, a: seq<Stroke>, b: seq<Stroke>)
    ensures PaintAll(s, a + b) == PaintAll(PaintAll(s, a), b)
  {
    if b == [] {
      assert a + b == a;
    } else {
      var n := |b| - 1;
      PaintAllAppend(s, a, b[..n]);
      assert (a + b)[..|a + b| - 1] == a + b[..n];
    }
  }

  /** The four `put` calls of one connection. */
  method DrawConnection(p: Pane, c: LineCoordinate, level: nat, connector: char)
    requires p.Valid() && Placed(c, level) && level + 2 <= p.height
    requires c.lhs.x < p.width && c.rhs.x < p.width
    modifies p
    ensures p.Valid()
    ensures p.surface == PaintAll(old(p.surface), StrokesOf(c, p.height, connector))
  {
    ghost var s0 := p.surface;
    ghost var four := StrokesOf(c, p.height, connector);
    var lhsDown := Point(c.lhs.x, p.height);
    var rhsDown := Point(c.rhs.x, p.height);
    p.Put(Line(c.lhs, lhsDown), '|');
    assert four[..1][..0] == [];
    assert p.surface == PaintAll(s0, four[..1]);
    p.Put(Line(c.rhs, rhsDown), '|');
    assert four[..2][..1] == four[..1];
    assert p.surface == PaintAll(s0, four[..2]);
    p.Put(Dot(Point(rhsDown.x, rhsDown.y - 1)), connector);
    assert four[..3][..2] == four[..2];
    assert p.surface == PaintAll(s0, four[..3]);
    p.Put(Line(c.from, c.to), '-');
    assert four[..4][..3] == four[..3] && four[..4] == four;
  }

  /** The second loop of `pane`: each connection drawn in list order. */
  method DrawConnections(p: Pane, coordinates: seq<LineCoordinate>, connector: char)
    requires p.Valid() && p.height == 2 * |coordinates|
    requires ColumnsFit(coordinates, p.width) && Placement(coordinates)
    modifies p
    ensures p.Valid()
    ensures p.surface == PaintAll(old(p.surface), Strokes(coordinates, p.height, connector))
  {
    ghost var blank := p.surface;
    for j := 0 to |coordinates|
      invariant p.Valid()
      invariant p.surface == PaintAll(blank, Strokes(coordinates[..j], p.height, connector))
    {
      ghost var done := Strokes(coordinates[..j], p.height, connector);
      assert coordinates[..j + 1][..j] == coordinates[..j];
      DrawConnection(p, coordinates[j], 2 * j, connector);
      PaintAllAppend(blank, done, StrokesOf(coordinates[j], p.height, connector));
    }
    assert coordinates[..|coordinates|] == coordinates;
  }

  /** Stroke `m` of the drawing is stroke `m % 4` of connection `m / 4`. */
  lemma {:induction false} StrokeAt(coords: seq<LineCoordinate>, hight: nat, connector: char, m: nat)
    requires hight >= 1 && m < 4 * |coords|
    ensures Strokes(coords, hight, connector)[m] == StrokesOf(coords[m / 4], hight, connector)[m % 4]
  {
    var n := |coords| - 1;
    if m < 4 * n {
      StrokeAt(coords[..n], hight, connector, m);
      assert coords[..n][m / 4] == coords[m / 4];
    }
  }

  /** The cells each of a placed connection's four strokes writes: its two
      drops cover their column from the connector row to the floor, its
      connector the floor cell under `rhs`, and its '-' run the columns
      strictly between the two connector columns on the upper row. */
  lemma StrokesOfCover(c: LineCoordinate, level: nat, hight: nat, connector: char, x: nat, y: nat)
    requires Placed(c, level) && level + 2 <= hight
    ensures var four := StrokesOf(c, hight, connector);
      (Covers(four[0].shape, x, y) <==> x == c.lhs.x && level + 1 <= y < hight) &&
      (Covers(four[1].shape, x, y) <==> x == c.rhs.x && level + 1 <= y < hight) &&
      (Covers(four[2].shape, x, y) <==> x == c.rhs.x && y == hight - 1) &&
      (Covers(four[3].shape, x, y) <==> y == level && DashAt(c, x)) &&
      four[0].glyph == '|' && four[1].glyph == '|' && four[2].glyph == connector && four[3].glyph == '-'
  {
  }

  /** The columns of a connection's '-' run: those strictly between its two
      connector columns, or the single shared column when they coincide. */
  predicate DashAt(c: LineCoordinate, x: nat) {
    if c.lhs.x == c.rhs.x then x == c.lhs.x
    else Min(c.lhs.x, c.rhs.x) < x < Max(c.lhs.x, c.rhs.x)
  }

  /** Whether connection `j` has a connector column at `x`. */
  predicate UsesColumn(c: LineCoordinate, x: nat) {
    c.lhs.x == x || c.rhs.x == x
  }

  /** What stroke `m` of the drawing does at cell (x, y): stroke `m % 4` of
      connection `m / 4`, as `StrokesOfCover` describes it. */
  predicate StrokeAtCell(coords: seq<LineCoordinate>, hight: nat, connector: char, s: Stroke, m: nat, x: nat, y: nat)
    requires m / 4 < |coords|
  {
    var c := coords[m / 4];
    var level := 2 * (m / 4);
    if m % 4 == 0 then s.glyph == '|' && (Covers(s.shape, x, y) <==> x == c.lhs.x && level + 1 <= y < hight)
    else if m % 4 == 1 then s.glyph == '|' && (Covers(s.shape, x, y) <==> x == c.rhs.x && level + 1 <= y < hight)
    else if m % 4 == 2 then s.glyph == connector && (Covers(s.shape, x, y) <==> x == c.rhs.x && y == hight - 1)
    else s.glyph == '-' && (Covers(s.shape, x, y) <==> y == level && DashAt(c, x))
  }

  /** `strokes` acts at cell (x, y) as the drawing of `coords` does. */
  ghost predicate CellStrokes(coords: seq<LineCoordinate>, hight: nat, connector: char, strokes: seq<Stroke>, x: nat, y: nat) {
    |strokes| == 4 * |coords| &&
    forall m {:trigger strokes[m]} :: 0 <= m < |strokes| ==>
      m / 4 < |coords| && StrokeAtCell(coords, hight, connector, strokes[m], m, x, y)
  }

  lemma StrokesCells(coords: seq<LineCoordinate>, hight: nat, connector: char, x: nat, y: nat)
    requires Placement(coords) && hight == 2 * |coords|
    ensures CellStrokes(coords, hight, connector, Strokes(coords, hight, connector), x, y)
  {
    var strokes := Strokes(coords, hight, connector);
    forall m | 0 <= m < |strokes|
      ensures m / 4 < |coords| && StrokeAtCell(coords, hight, connector, strokes[m], m, x, y)
    {
      StrokeAt(coords, hight, connector, m);
      StrokesOfCover(coords[m / 4], 2 * (m / 4), hight, connector, x, y);
    }
  }

  /** Row `2k`, the '-' row of connection `k`: the columns of its run show
      '-', the other columns show the drop of an earlier connection or stay
      blank. */
  lemma ConnectionRow(coords: seq<LineCoordinate>, w: nat, connector: char, k: nat, x: nat)
    requires Placement(coords) && k < |coords| && x < w
    ensures var h := 2 * |coords|;
      PaintAll(Blank(w, h), Strokes(coords, h, connector))[2 * k][x] ==
        if DashAt(coords[k], x) then '-'
        else if exists j :: 0 <= j < k && UsesColumn(coords[j], x) then '|'
        else ' '
  {
    var h := 2 * |coords|;
    StrokesCells(coords, h, connector, x, 2 * k);
    ConnectionRowCell(coords, w, h, connector, k, x, Blank(w, h), Strokes(coords, h, connector));
  }

  lemma ConnectionRowCell(coords: seq<LineCoordinate>, w: nat, h: nat, connector: char, k: nat, x: nat,
                          s: Grid, strokes: seq<Stroke>)
    requires h == 2 * |coords| && k < |coords| && x < w && IsGrid(s, w, h) && s[2 * k][x] == ' '
    requires CellStrokes(coords, h, connector, strokes, x, 2 * k)
    ensures PaintAll(s, strokes)[2 * k][x] ==
      if DashAt(coords[k], x) then '-'
      else if exists j :: 0 <= j < k && UsesColumn(coords[j], x) then '|'
      else ' '
  {
    var y := 2 * k;
    if DashAt(coords[k], x) {
      var m := 4 * k + 3;
      assert m / 4 == k && m % 4 == 3;
      assert StrokeAtCell(coords, h, connector, strokes[m], m, x, y);
      forall i | m < i < |strokes| ensures !Covers(strokes[i].shape, x, y) {
        assert StrokeAtCell(coords, h, connector, strokes[i], i, x, y);
      }
      ShowsLast(s, w, h, strokes, x, y, m);
    } else {
      forall i | 0 <= i < |strokes| && Covers(strokes[i].shape, x, y) ensures strokes[i].glyph == '|' {
        assert StrokeAtCell(coords, h, connector, strokes[i], i, x, y);
      }
      ShowsUniform(s, w, h, strokes, x, y, '|');
      if exists j :: 0 <= j < k && UsesColumn(coords[j], x) {
        var j :| 0 <= j < k && UsesColumn(coords[j], x);
        var m := if coords[j].lhs.x == x then 4 * j else 4 * j + 1;
        assert m / 4 == j;
        assert StrokeAtCell(coords, h, connector, strokes[m], m, x, y);
        assert Covers(strokes[m].shape, x, y);
      } else {
        assert !Touched(strokes, x, y) by {
          forall i | 0 <= i < |strokes| ensures !Covers(strokes[i].shape, x, y) {
            assert StrokeAtCell(coords, h, connector, strokes[i], i, x, y);
            if i / 4 < k {
              assert !UsesColumn(coords[i / 4], x);
            }
          }
        }
      }
    }
  }

  /** Row `2k + 1`, the connector row of connection `k`, above the floor
      row: a column shows '|' when connection `k` or an earlier one `j`
      drops down it. */
  lemma DropRow(coords: seq<LineCoordinate>, w: nat, connector: char, k: nat, j: nat, x: nat)
    requires Placement(coords) && k + 1 < |coords| && x < w
    requires j <= k && UsesColumn(coords[j], x)
    ensures var h := 2 * |coords|;
      PaintAll(Blank(w, h), Strokes(coords, h, connector))[2 * k + 1][x] == '|'
  {
    var h := 2 * |coords|;
    StrokesCells(coords, h, connector, x, 2 * k + 1);
    DropRowCell(coords, w, h, connector, k, j, x, Blank(w, h), Strokes(coords, h, connector));
  }

  lemma DropRowCell(coords: seq<LineCoordinate>, w: nat, h: nat, connector: char, k: nat, j: nat, x: nat,
                    s: Grid, strokes: seq<Stroke>)
    requires h == 2 * |coords| && k + 1 < |coords| && x < w && IsGrid(s, w, h)
    requires j <= k && UsesColumn(coords[j], x)
    requires CellStrokes(coords, h, connector, strokes, x, 2 * k + 1)
    ensures PaintAll(s, strokes)[2 * k + 1][x] == '|'
  {
    var y := 2 * k + 1;
    forall i | 0 <= i < |strokes| && Covers(strokes[i].shape, x, y) ensures strokes[i].glyph == '|' {
      assert StrokeAtCell(coords, h, connector, strokes[i], i, x, y);
    }
    ShowsUniform(s, w, h, strokes, x, y, '|');
    var m := if coords[j].lhs.x == x then 4 * j else 4 * j + 1;
    assert m / 4 == j;
    assert StrokeAtCell(coords, h, connector, strokes[m], m, x, y);
    assert Covers(strokes[m].shape, x, y);
  }

  /** A cell in row `2k + 1` whose column no connection up to `k` uses
      stays blank. */
  lemma DropRowBlank(coords: seq<LineCoordinate>, w: nat, connector: char, k: nat, x: nat)
    requires Placement(coords) && k < |coords| && x < w
    requires forall j :: 0 <= j <= k ==> !UsesColumn(coords[j], x)
    ensures var h := 2 * |coords|;
      PaintAll(Blank(w, h), Strokes(coords, h, connector))[2 * k + 1][x] == ' '
  {
    var h := 2 * |coords|;
    StrokesCells(coords, h, connector, x, 2 * k + 1);
    DropRowBlankCell(coords, w, h, connector, k, x, Blank(w, h), Strokes(coords, h, connector));
  }

  lemma DropRowBlankCell(coords: seq<LineCoordinate>, w: nat, h: nat, connector: char, k: nat, x: nat,
                         s: Grid, strokes: seq<Stroke>)
    requires h == 2 * |coords| && k < |coords| && x < w && IsGrid(s, w, h) && s[2 * k + 1][x] == ' '
    requires forall j :: 0 <= j <= k ==> !UsesColumn(coords[j], x)
    requires CellStrokes(coords, h, connector, strokes, x, 2 * k + 1)
    ensures PaintAll(s, strokes)[2 * k + 1][x] == ' '
  {
    var y := 2 * k + 1;
    LastWriter(s, w, h, strokes, x, y);
    assert !Touched(strokes, x, y) by {
      forall i | 0 <= i < |strokes| ensures !Covers(strokes[i].shape, x, y) {
        assert StrokeAtCell(coords, h, connector, strokes[i], i, x, y);
        if i / 4 <= k {
          assert !UsesColumn(coords[i / 4], x);
        }
      }
    }
  }

  /** The floor row: a column that some connection uses shows the glyph its
      last user left there, the connector when the column is that
      connection's target column and '|' when it is only its source column. */
  lemma FloorRow(coords: seq<LineCoordinate>, w: nat, connector: char, j: nat, x: nat)
    requires Placement(coords) && j < |coords| && x < w
    requires UsesColumn(coords[j], x)
    requires forall i :: j < i < |coords| ==> !UsesColumn(coords[i], x)
    ensures var h := 2 * |coords|;
      PaintAll(Blank(w, h), Strokes(coords, h, connector))[h - 1][x] ==
        if coords[j].rhs.x == x then connector else '|'
  {
    var h := 2 * |coords|;
    var y := 2 * (|coords| - 1) + 1;
    StrokesCells(coords, h, connector, x, y);
    FloorRowCell(coords, w, h, connector, j, x, y, Blank(w, h), Strokes(coords, h, connector));
  }

  lemma FloorRowCell(coords: seq<LineCoordinate>, w: nat, h: nat, connector: char, j: nat, x: nat, y: nat,
                     s: Grid, strokes: seq<Stroke>)
    requires h == 2 * |coords| && y + 1 == h && j < |coords| && x < w && IsGrid(s, w, h)
    requires UsesColumn(coords[j], x)
    requires forall i :: j < i < |coords| ==> !UsesColumn(coords[i], x)
    requires CellStrokes(coords, h, connector, strokes, x, y)
    ensures PaintAll(s, strokes)[y][x] == if coords[j].rhs.x == x then connector else '|'
  {
    var last := if coords[j].rhs.x == x then 4 * j + 2 else 4 * j;
    assert last / 4 == j;
    assert StrokeAtCell(coords, h, connector, strokes[last], last, x, y);
    forall i | last < i < |strokes| ensures !Covers(strokes[i].shape, x, y) {
      assert StrokeAtCell(coords, h, connector, strokes[i], i, x, y);
      if i / 4 > j {
        assert !UsesColumn(coords[i / 4], x);
      }
    }
    ShowsLast(s, w, h, strokes, x, y, last);
  }

  /** The endpoints of the first `k` connections are the first `2k`
      endpoints, and connection `k` contributes the next two. */
  lemma {:induction false} EndpointsPrefix(list: seq<(nat, nat)>, k: nat)
    requires k < |list|
    ensures Endpoints(list)[..2 * k] == Endpoints(list[..k])
    ensures Endpoints(list)[2 * k] == list[k].0 && Endpoints(list)[2 * k + 1] == list[k].1
  {
    var n := |list| - 1;
    assert list[..n + 1] == list;
    if k < n {
      EndpointsPrefix(list[..n], k);
      assert list[..n][..k] == list[..k];
      assert Endpoints(list)[..2 * n] == Endpoints(list[..n]);
    } else {
      assert Endpoints(list)[..2 * k] == Endpoints(list[..k]);
    }
  }

  /** The column of the `p`-th endpoint use: its box's first column plus one
      connection size per earlier use of the same node. */
  function EndColumn(concept: seq<nat>, settings: PaneSettings, list: seq<(nat, nat)>, p: nat): nat
    requires p < 2 * |list|
  {
    var e := Endpoints(list);
    StartElementIndex(concept, settings.gapSize, e[p]) + Count(e[..p], e[p]) * settings.connectionSize
  }

  /** Connection `k`'s connector columns are the columns of endpoint uses
      `2k` (its source) and `2k + 1` (its target). */
  lemma {:induction false} LayoutColumns(concept: seq<nat>, settings: PaneSettings, list: seq<(nat, nat)>, k: nat)
    requires k < |list|
    ensures Layout(concept, settings, list)[k].lhs.x == EndColumn(concept, settings, list, 2 * k)
    ensures Layout(concept, settings, list)[k].rhs.x == EndColumn(concept, settings, list, 2 * k + 1)
  {
    LayoutAt(concept, settings, list, k);
    EndpointsPrefix(list, k);
    var e := Endpoints(list);
    assert e[..2 * k + 1] == e[..2 * k] + [e[2 * k]];
  }

  /** Connection `k` of the layout is placed from the endpoint uses before it. */
  lemma {:induction false} LayoutAt(concept: seq<nat>, settings: PaneSettings, list: seq<(nat, nat)>, k: nat)
    requires k < |list|
    ensures Layout(concept, settings, list)[k] ==
      CoordinateOf(concept, settings, Endpoints(list[..k]), list[k], 2 * k)
  {
    var n := |list| - 1;
    if k < n {
      LayoutAt(concept, settings, list[..n], k);
      assert list[..n][..k] == list[..k];
    }
  }

  /** A later use of `s[i]` has seen at least one more use of it. */
  lemma {:induction false} CountGrows(s: seq<nat>, i: nat, j: nat)
    requires i < j <= |s|
    ensures Count(s[..j], s[i]) >= Count(s[..i], s[i]) + 1
  {
    assert s[..j][..j - 1] == s[..j - 1];
    if j - 1 > i {
      CountGrows(s, i, j - 1);
    } else {
      assert s[..j - 1] == s[..i];
    }
  }

  /** Two uses of the same node attach at least one connection size apart,
      the later one further right: with a positive connection size no two
      connections share an attachment column of a box. */
  lemma SpreadUses(concept: seq<nat>, settings: PaneSettings, list: seq<(nat, nat)>, p1: nat, p2: nat)
    requires p1 < p2 < 2 * |list| && Endpoints(list)[p1] == Endpoints(list)[p2]
    ensures EndColumn(concept, settings, list, p2) >= EndColumn(concept, settings, list, p1) + settings.connectionSize
  {
    var e := Endpoints(list);
    var cs := settings.connectionSize;
    CountGrows(e, p1, p2);
    MoreUsesFurther(Count(e[..p2], e[p1]), Count(e[..p1], e[p1]), cs);
  }

  lemma MoreUsesFurther(a: nat, b: nat, cs: nat)
    requires a >= b + 1
    ensures a * cs >= b * cs + cs
  {
    var d := a - (b + 1);
    calc {
      a * cs;
      (d + (b + 1)) * cs;
      d * cs + (b + 1) * cs;
    }
  }
}
