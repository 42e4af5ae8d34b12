/** The two programs that paint searches onto a `MatrixPane`:
    `construct_path` (src/path_matrix.rs) runs A* with the Manhattan
    heuristic, marks every node it settled and then the route back from the
    goal; `frames` (src/animated_path.rs) runs `dijkstra_extra`, marking one
    traced group at a time and then the route one node at a time, taking a
    picture of the pane after each mark. A payload is painted by
    `MatrixPane.SetData`; what the pane shows is `Picture`. */
module Painting {
  import opened Arena
  import opened Text
  import opened Matrix
  import opened Search
  import opened AStarState
  import opened AStarSearch
  import Panes

  // ---------------------------------------------------------------------
  // The heuristic of `construct_path`
  // ---------------------------------------------------------------------

  /** `f64::abs(a as f64 - b as f64) as usize`: the distance of two
      coordinates. */
  function Gap(a: nat, b: nat): (d: nat)
    ensures a + d == b || b + d == a
  {
    if a <= b then b - a else a - b
  }

  /** The closure passed to `a_star`: how many rows and columns lie between
      node `n` and the goal `t`. */
  function Manhattan(w: nat, t: nat, n: nat): nat
    requires w > 0
  {
    var (xt, yt) := GetXY(w, t);
    var (xn, yn) := GetXY(w, n);
    Gap(xt, xn) + Gap(yt, yn)
  }

  /** The heuristic is zero exactly at the goal. */
  lemma ManhattanZero(w: nat, t: nat, n: nat)
    requires w > 0
    ensures Manhattan(w, t, n) == 0 <==> n == t
  {
    var (xt, yt) := GetXY(w, t);
    var (xn, yn) := GetXY(w, n);
    if Manhattan(w, t, n) == 0 {
      assert xt == xn && yt == yn;
    }
  }

  /** One link of the grid changes the heuristic by at most one. */
  lemma ManhattanStep(w: nat, n: nat, t: nat, a: nat, b: nat, weight: nat)
    requires w > 0 && a < n && Link(b, weight) in GridLinks(w, n, a)
    ensures weight == Weight
    ensures Manhattan(w, t, a) <= Manhattan(w, t, b) + 1
    ensures Manhattan(w, t, b) <= Manhattan(w, t, a) + 1
  {
    GridLinksAdjacent(w, n, a, b, weight);
  }

  /** Every node's links are the grid's: what `MatrixPane.Valid` says about
      the arena, without its size. */
  ghost predicate OnGrid(g: Graph<string>, w: nat) {
    forall j :: 0 <= j < |g| ==> g[j].edges == Stored(GridLinks(w, |g|, j))
  }

  /** The heuristic never overestimates: every walk from `p[0]` to the goal
      weighs at least ten per unit of Manhattan distance. */
  lemma {:induction false} ManhattanAdmissible(g: Graph<string>, w: nat, t: nat, p: seq<nat>, ws: seq<nat>)
    requires w > 0 && OnGrid(g, w)
    requires LinkWalk(g, p, ws) && p[|p| - 1] == t
    ensures Manhattan(w, t, p[0]) * Weight <= SumOf(ws)
    decreases |p|
  {
    if |p| == 1 {
      ManhattanZero(w, t, p[0]);
    } else {
      assert Link(p[1], ws[0]) in Edges(g, p[0]);
      ManhattanStep(w, |g|, t, p[0], p[1], ws[0]);
      ManhattanAdmissible(g, w, t, p[1..], ws[1..]);
    }
  }

  /** The closure `construct_path` passes to `a_star` is admissible on a
      grid, so the route A* returns is a cheapest one. */
  lemma ManhattanAdmits(g: Graph<string>, w: nat, t: nat, h: nat -> nat)
    requires w > 0 && OnGrid(g, w)
    requires forall n: nat :: h(n) == Manhattan(w, t, n)
    ensures Admissible(g, h, t)
  {
    forall p, ws | LinkWalk(g, p, ws) && p[|p| - 1] == t
      ensures h(p[0]) <= SumOf(ws)
    {
      ManhattanAdmissible(g, w, t, p, ws);
    }
  }

  /** A valid matrix pane is a well-formed arena: every grid link stays
      inside it. */
  lemma GridWellFormed(g: Graph<string>, w: nat)
    requires w > 0 && OnGrid(g, w)
    ensures WellFormed(g)
  {
    forall u, i | 0 <= u < |g| && 0 <= i < |Edges(g, u)|
      ensures Edges(g, u)[i].to < |g|
    {
      var l := Edges(g, u)[i];
      assert l in GridLinks(w, |g|, u);
      GridLinksAdjacent(w, |g|, u, l.to, l.weight);
    }
  }

  // ---------------------------------------------------------------------
  // Painting payloads
  // ---------------------------------------------------------------------

  /** The arena after every node of `nodes` got the payload `s`, in any
      order; the links and the other payloads stay. */
  function Painted(g: Graph<string>, nodes: set<nat>, s: string): (r: Graph<string>)
    ensures |r| == |g|
  {
    seq(|g|, j requires 0 <= j < |g| => if j in nodes then g[j].(data := s) else g[j])
  }

  /** The nodes a route or a traced group names. */
  function Members(p: seq<nat>): (r: set<nat>)
    ensures forall k :: k in r <==> k in p
  {
    set k | k in p
  }

  /** The nodes of the first `n` traced groups. */
  function Upto(trace: seq<seq<nat>>, n: nat): (r: set<nat>)
    requires n <= |trace|
    ensures forall i, j :: 0 <= i < n && 0 <= j < |trace[i]| ==> trace[i][j] in r
    ensures forall k :: k in r ==> exists i :: 0 <= i < n && k in trace[i]
  {
    if n == 0 then {} else Upto(trace, n - 1) + Members(trace[n - 1])
  }

  /** Painting is pointwise: a painted node holds `s` and keeps its links,
      every other node is untouched. */
  lemma PaintedAt(g: Graph<string>, nodes: set<nat>, s: string, j: nat)
    requires j < |g|
    ensures Painted(g, nodes, s)[j].edges == g[j].edges
    ensures j in nodes ==> Painted(g, nodes, s)[j].data == s
    ensures j !in nodes ==> Painted(g, nodes, s)[j] == g[j]
  {
  }

  /** Painting two sets with one payload is painting their union. */
  lemma PaintedUnion(g: Graph<string>, a: set<nat>, b: set<nat>, s: string)
    ensures Painted(Painted(g, a, s), b, s) == Painted(g, a + b, s)
  {
  }

  /** A later payload wins over an earlier one on the nodes both paint. */
  lemma PaintedOver(g: Graph<string>, a: set<nat>, b: set<nat>, s: string, t: string, j: nat)
    requires j < |g|
    ensures Painted(Painted(g, a, s), b, t)[j].data ==
      if j in b then t else if j in a then s else g[j].data
  {
  }

  /** One more painted node: the update `SetData` makes. */
  lemma PaintStep(g: Graph<string>, a: set<nat>, x: nat, s: string)
    requires x < |g|
    ensures var p := Painted(g, a, s); p[x := p[x].(data := s)] == Painted(g, a + {x}, s)
  {
  }

  /** Painting nothing changes nothing. */
  lemma PaintedNone(g: Graph<string>, s: string)
    ensures Painted(g, Members([]), s) == g
  {
  }

  /** Painting keeps the grid's links. */
  lemma PaintedOnGrid(g: Graph<string>, w: nat, a: set<nat>, s: string)
    requires OnGrid(g, w)
    ensures OnGrid(Painted(g, a, s), w)
  {
  }

  /** Painting with a one-line payload keeps every payload one line. */
  lemma PaintedClean(g: Graph<string>, a: set<nat>, s: string)
    requires CleanPayloads(g) && NoNewline(s)
    ensures CleanPayloads(Painted(g, a, s))
  {
  }

  /** `get_node(i).unwrap().borrow_mut().data = s` for each node of
      `nodes` in turn. */
  method PaintNodes(m: MatrixPane, nodes: seq<nat>, s: string)
    requires m.Valid() && forall k :: 0 <= k < |nodes| ==> nodes[k] < |m.gh|
    modifies m
    ensures m.Valid() && m.gh == Painted(old(m.gh), Members(nodes), s)
  {
    ghost var g0 := m.gh;
    for k := 0 to |nodes|
      invariant m.Valid() && m.gh == Painted(g0, Members(nodes[..k]), s)
    {
      PaintStep(g0, Members(nodes[..k]), nodes[k], s);
      assert Members(nodes[..k + 1]) == Members(nodes[..k]) + {nodes[k]};
      m.SetData(nodes[k], s);
    }
    assert nodes[..|nodes|] == nodes;
  }

  /** The loop over the entries of the predecessor map: each key painted
      `s`; the order of the map does not matter for the result. */
  method PaintKeys(m: MatrixPane, keys: set<nat>, s: string)
    requires m.Valid() && forall k :: k in keys ==> k < |m.gh|
    modifies m
    ensures m.Valid() && m.gh == Painted(old(m.gh), keys, s)
  {
    ghost var g0 := m.gh;
    var rest := keys;
    while rest != {}
      invariant rest <= keys
      invariant m.Valid() && m.gh == Painted(g0, keys - rest, s)
      decreases |rest|
    {
      var k :| k in rest;
      PaintStep(g0, keys - rest, k, s);
      assert keys - (rest - {k}) == (keys - rest) + {k};
      m.SetData(k, s);
      rest := rest - {k};
    }
    assert keys - rest == keys;
  }

  // ---------------------------------------------------------------------
  // Pictures
  // ---------------------------------------------------------------------

  /** `matrix.pane().to_string()`: the row strings, the empty ones dropped,
      stacked into a grid as wide as the longest and `h` rows tall, the
      grid's rows joined by newlines. */
  function Picture(g: Graph<string>, w: nat, h: nat): string
    requires w > 0 && |g| == w * h
  {
    var rows := RowStrings(g, w);
    RowStringsCount(g, w, h);
    JoinLines(Panes.Stacked(Panes.DropEmpty(rows), MaxLen(rows), h))
  }

  /** One frame: the pane rendered and turned into text. */
  method Snapshot(m: MatrixPane) returns (text: string)
    requires m.Valid() && m.width > 0 && CleanPayloads(m.gh)
    ensures text == Picture(m.gh, m.width, m.hight)
  {
    var p := m.Render();
    text := JoinLines(p.surface);
  }

  // ---------------------------------------------------------------------
  // Routes
  // ---------------------------------------------------------------------

  /** Every key of the predecessor map is a node of `g` reached by a link
      from its predecessor, itself a node of `g`. */
  ghost predicate Backlinks(g: Graph<string>, area: map<nat, nat>) {
    forall k :: k in area ==> k < |g| && area[k] < |g| && k in Targets(g, area[k])
  }

  /** Each predecessor is the start or has a predecessor itself. */
  ghost predicate Rooted(area: map<nat, nat>, start: nat) {
    forall k :: k in area ==> area[k] == start || area[k] in area
  }

  /** A key and its predecessor are grid neighbours inside the pane. */
  lemma BackStep(g: Graph<string>, w: nat, area: map<nat, nat>, v: nat)
    requires w > 0 && OnGrid(g, w) && Backlinks(g, area) && v in area
    ensures v < |g| && area[v] < |g| && Adjacent(w, area[v], v)
  {
    var u := area[v];
    var j :| 0 <= j < |Targets(g, u)| && Targets(g, u)[j] == v;
    var l := Edges(g, u)[j];
    assert l in GridLinks(w, |g|, u);
    GridLinksAdjacent(w, |g|, u, v, l.weight);
  }

  /** On a grid, the walk back through a predecessor map visits nodes of
      the pane, each a horizontal or vertical neighbour of the one before. */
  lemma RouteOnGrid(g: Graph<string>, w: nat, area: map<nat, nat>, from: nat, to: nat, p: seq<nat>)
    requires w > 0 && OnGrid(g, w) && Backlinks(g, area) && Rooted(area, to) && PathOf(area, from, to, p)
    ensures |p| >= 2 && p[0] == from && p[|p| - 1] == to
    ensures forall i :: 0 <= i < |p| ==> p[i] < |g|
    ensures forall i :: 0 <= i < |p| - 1 ==> Adjacent(w, p[i + 1], p[i])
  {
    RouteEnds(area, from, to, p);
    forall i | 0 <= i < |p| - 1
      ensures Adjacent(w, p[i + 1], p[i])
    {
      BackStep(g, w, area, p[i]);
    }
    forall i | 0 <= i < |p|
      ensures p[i] < |g|
    {
      if i < |p| - 1 {
        BackStep(g, w, area, p[i]);
      } else {
        BackStep(g, w, area, p[i - 1]);
      }
    }
  }

  /** When every predecessor is the start or a key, the walk back from a
      key ends at the start. */
  lemma RouteEnds(area: map<nat, nat>, from: nat, to: nat, p: seq<nat>)
    requires PathOf(area, from, to, p) && Rooted(area, to)
    ensures p[|p| - 1] == to
  {
    var n := |p| - 1;
    assert p[n] == area[p[n - 1]];
  }

  // ---------------------------------------------------------------------
  // construct_path
  // ---------------------------------------------------------------------

  /** `construct_path`: A* from `from` to `look` with the Manhattan
      heuristic; every settled node is painted `checkedSymbol`, then the
      route back from `look` to `from` is painted `pathSymbol`. A failed
      search or a goal equal to the start makes the source panic on
      `unwrap`: then `ok` is false, and the pane holds what was painted
      before. `cameFrom` is A*'s predecessor map (empty when it failed):
      real links, rooted at `from`, and the painted route is the walk back
      through it, a cheapest one. */
  method ConstructPath(m: MatrixPane, from: nat, look: nat, pathSymbol: string, checkedSymbol: string)
    returns (ok: bool, ghost cameFrom: map<nat, nat>, ghost route: seq<nat>)
    requires m.Valid() && m.width > 0 && from < |m.gh|
    modifies m
    ensures m.Valid()
    ensures ok ==> look != from && |route| >= 2 && route[0] == look && route[|route| - 1] == from
    ensures ok ==> forall i :: 0 <= i < |route| - 1 ==> Adjacent(m.width, route[i + 1], route[i])
    ensures ok ==> m.gh == Painted(Painted(old(m.gh), cameFrom.Keys, checkedSymbol), Members(route), pathSymbol)
    ensures from !in cameFrom && Backlinks(old(m.gh), cameFrom) && Rooted(cameFrom, from)
    ensures ok <==> look != from && look in cameFrom
    ensures ok ==> PathOf(cameFrom, look, from, route)
    ensures ok ==> exists ws :: BackWalk(old(m.gh), route, ws) && Least(old(m.gh), from, look, SumOf(ws))
    ensures !ok ==> route == [] && (m.gh == old(m.gh) || m.gh == Painted(old(m.gh), cameFrom.Keys, checkedSymbol))
    ensures !ok ==> (look == from ||
      forall p, ws :: LinkWalk(old(m.gh), p, ws) && p[0] == from && p[|p| - 1] == look ==> SumOf(ws) >= Inf)
  {
    route, cameFrom := [], map[];
    var w := m.width;
    var h := (n: nat) => Manhattan(w, look, n);
    GridWellFormed(m.gh, w);
    ManhattanAdmits(m.gh, w, look, h);
    var search := AStar(m.gh, from, look, h);
    if search.None? {
      return false, cameFrom, route;
    }
    var cf := search.value;
    cameFrom := cf;
    ghost var g0 := m.gh;
    assert Backlinks(g0, cf);
    assert Rooted(cf, from);
    PaintKeys(m, cf.Keys, checkedSymbol);
    var back := Path(cf, look, from);
    if back.None? {
      return false, cameFrom, route;
    }
    var points := back.value;
    RouteOnGrid(g0, w, cf, look, from, points);
    ghost var r, ws :| PathOf(cf, look, from, r) && BackWalk(g0, r, ws) && Least(g0, from, look, SumOf(ws));
    PathOfUnique(cf, look, from, points, r);
    PaintNodes(m, points, pathSymbol);
    route := points;
    ok := true;
  }

  // ---------------------------------------------------------------------
  // frames
  // ---------------------------------------------------------------------

  /** The nodes of a group are nodes of a well-formed arena. */
  lemma GroupInside(g: Graph<string>, group: seq<nat>)
    requires WellFormed(g) && Group(g, group)
    ensures forall k :: 0 <= k < |group| ==> group[k] < |g|
  {
    forall k | 1 <= k < |group| ensures group[k] < |g| {
      assert group[k] == Targets(g, group[0])[k - 1];
    }
  }

  /** What Dijkstra's outcome says about its predecessor map, in the terms
      the walk back needs. */
  lemma OutcomeRoutes(g: Graph<string>, source: nat, trace: seq<seq<nat>>, rev: map<nat, nat>,
                      dist: map<nat, nat>, rank: map<nat, nat>)
    requires Outcome(g, source, trace, rev, dist, rank)
    ensures Backlinks(g, rev) && Rooted(rev, source)
    ensures forall k :: k in rev ==> PathEnds(rev, k, source)
  {
    forall k | k in rev
      ensures k < |g| && rev[k] < |g| && k in Targets(g, rev[k])
      ensures rev[k] == source || rev[k] in rev
      ensures PathEnds(rev, k, source)
    {
      assert RevLink(g, source, dist, rev[k], k);
      var l :| l in Edges(g, rev[k]) && l.to == k;
      var j :| 0 <= j < |Edges(g, rev[k])| && Edges(g, rev[k])[j] == l;
      assert Targets(g, rev[k])[j] == k;
      RankedEnds(rev, rank, k, source);
    }
  }

  /** The pictures taken while the first `n` traced groups are painted
      `s`: the `k`-th shows the first `k + 1` groups painted. */
  function TracePictures(g: Graph<string>, trace: seq<seq<nat>>, n: nat, s: string, w: nat, h: nat): (r: seq<string>)
    requires w > 0 && |g| == w * h && n <= |trace|
    ensures |r| == n
    ensures forall k :: 0 <= k < n ==> r[k] == Picture(Painted(g, Upto(trace, k + 1), s), w, h)
  {
    if n == 0 then []
    else TracePictures(g, trace, n - 1, s, w, h) + [Picture(Painted(g, Upto(trace, n), s), w, h)]
  }

  /** The pictures taken while the first `n` nodes of a route are painted
      `s`: the `k`-th shows its first `k + 1` nodes painted. */
  function RoutePictures(g: Graph<string>, route: seq<nat>, n: nat, s: string, w: nat, h: nat): (r: seq<string>)
    requires w > 0 && |g| == w * h && n <= |route|
    ensures |r| == n
    ensures forall k :: 0 <= k < n ==> r[k] == Picture(Painted(g, Members(route[..k + 1]), s), w, h)
  {
    if n == 0 then []
    else RoutePictures(g, route, n - 1, s, w, h) + [Picture(Painted(g, Members(route[..n]), s), w, h)]
  }

  /** The first loop of `frames`: each traced group painted `s`, then a
      picture. */
  method TraceFrames(m: MatrixPane, trace: seq<seq<nat>>, s: string) returns (frames: seq<string>)
    requires m.Valid() && m.width > 0 && CleanPayloads(m.gh) && NoNewline(s)
    requires WellFormed(m.gh) && forall i :: 0 <= i < |trace| ==> Group(m.gh, trace[i])
    modifies m
    ensures m.Valid() && m.gh == Painted(old(m.gh), Upto(trace, |trace|), s)
    ensures frames == TracePictures(old(m.gh), trace, |trace|, s, m.width, m.hight)
  {
    ghost var g0 := m.gh;
    frames := [];
    for i := 0 to |trace|
      invariant m.Valid() && m.gh == Painted(g0, Upto(trace, i), s)
      invariant CleanPayloads(m.gh)
      invariant frames == TracePictures(g0, trace, i, s, m.width, m.hight)
    {
      GroupInside(g0, trace[i]);
      PaintNodes(m, trace[i], s);
      PaintedUnion(g0, Upto(trace, i), Members(trace[i]), s);
      PaintedClean(g0, Upto(trace, i + 1), s);
      var text := Snapshot(m);
      frames := frames + [text];
    }
  }

  /** The second loop of `frames`: each node of the route painted `s`,
      then a picture. */
  method RouteFrames(m: MatrixPane, route: seq<nat>, s: string) returns (frames: seq<string>)
    requires m.Valid() && m.width > 0 && CleanPayloads(m.gh) && NoNewline(s)
    requires forall i :: 0 <= i < |route| ==> route[i] < |m.gh|
    modifies m
    ensures m.Valid() && m.gh == Painted(old(m.gh), Members(route), s)
    ensures frames == RoutePictures(old(m.gh), route, |route|, s, m.width, m.hight)
  {
    ghost var g0 := m.gh;
    frames := [];
    for i := 0 to |route|
      invariant m.Valid() && m.gh == Painted(g0, Members(route[..i]), s)
      invariant CleanPayloads(m.gh)
      invariant frames == RoutePictures(g0, route, i, s, m.width, m.hight)
    {
      PaintStep(g0, Members(route[..i]), route[i], s);
      assert Members(route[..i + 1]) == Members(route[..i]) + {route[i]};
      m.SetData(route[i], s);
      PaintedClean(g0, Members(route[..i + 1]), s);
      var text := Snapshot(m);
      frames := frames + [text];
    }
    assert route[..|route|] == route;
  }

  /** What `dijkstra_extra` promises at the top of `frames`: one group per
      checked node other than `look`, none twice; a predecessor map absent
      exactly when `from` has no links, and otherwise Dijkstra's outcome;
      `look` without an entry is `from` or out of reach, and with one has a
      least distance that the walk back from it weighs exactly. */
  ghost predicate Explored(g: Graph<string>, from: nat, look: nat, trace: seq<seq<nat>>, result: Option<map<nat, nat>>,
                           dist: map<nat, nat>, rank: map<nat, nat>)
    requires from < |g|
  {
    (forall i :: 0 <= i < |trace| ==> |trace[i]| >= 1 && Group(g, trace[i]) && trace[i][0] != look) &&
    (forall i, j :: 0 <= i < j < |trace| ==> trace[i][0] != trace[j][0]) &&
    (result.None? <==> g[from].edges.None?) &&
    (result.None? ==> trace == []) &&
    (result.Some? ==> Outcome(g, from, trace, result.value, dist, rank)) &&
    (result.Some? && look !in result.value ==> look == from || !Reachable(g, from, look)) &&
    (result.Some? && look in result.value && look != from ==>
      look in dist && Least(g, from, look, dist[look]) &&
      exists r, ws :: PathOf(result.value, look, from, r) && BackWalk(g, r, ws) && SumOf(ws) == dist[look])
  }

  /** The call to `dijkstra_extra` at the top of `frames`, with what its
      outcome means for the painting: the traced groups, a predecessor map
      whose walks back from any key reach `from` along grid links, and, when
      `look` has an entry, a least distance that the walk back from it
      weighs exactly. */
  method Explore(g: Graph<string>, w: nat, from: nat, look: nat)
    returns (trace: seq<seq<nat>>, result: Option<map<nat, nat>>, ghost dist: map<nat, nat>, ghost rank: map<nat, nat>)
    requires w > 0 && OnGrid(g, w) && from < |g|
    ensures WellFormed(g) && Explored(g, from, look, trace, result, dist, rank)
    ensures result.Some? ==> Backlinks(g, result.value) && Rooted(result.value, from)
    ensures result.Some? ==> forall k :: k in result.value ==> PathEnds(result.value, k, from)
  {
    GridWellFormed(g, w);
    ghost var found;
    trace, result, dist, found, rank := DijkstraExtra(g, from, look);
    if result.Some? {
      OutcomeRoutes(g, from, trace, result.value, dist, rank);
    }
  }

  /** The second half of `frames`: `path(&path.unwrap(), look, from)`,
      then each node of the route painted `s` and pictured. A missing map
      or a `look` that is not one of its keys is where the source panics. */
  method FollowRoute(m: MatrixPane, ghost g: Graph<string>, result: Option<map<nat, nat>>, from: nat, look: nat, s: string)
    returns (frames: seq<string>, ok: bool, ghost route: seq<nat>)
    requires m.Valid() && m.width > 0 && CleanPayloads(m.gh) && NoNewline(s)
    requires OnGrid(g, m.width) && |g| == |m.gh|
    requires result.Some? ==> Backlinks(g, result.value) && Rooted(result.value, from)
    requires result.Some? ==> forall k :: k in result.value ==> PathEnds(result.value, k, from)
    modifies m
    ensures m.Valid() && m.gh == Painted(old(m.gh), Members(route), s)
    ensures frames == RoutePictures(old(m.gh), route, |route|, s, m.width, m.hight)
    ensures ok <==> result.Some? && look in result.value
    ensures ok ==> PathOf(result.value, look, from, route)
    ensures ok ==> |route| >= 2 && route[0] == look && route[|route| - 1] == from
    ensures ok ==> forall i :: 0 <= i < |route| - 1 ==> Adjacent(m.width, route[i + 1], route[i])
    ensures !ok ==> route == []
  {
    PaintedNone(m.gh, s);
    route, frames := [], [];
    if result.None? {
      return frames, false, route;
    }
    var back := Path(result.value, look, from);
    if back.None? {
      return frames, false, route;
    }
    var points := back.value;
    RouteOnGrid(g, m.width, result.value, look, from, points);
    frames := RouteFrames(m, points, s);
    route := points;
    ok := true;
  }

  /** `path` has one result, so the walk it returns is the one a search
      promised. */
  lemma SameRoute(g: Graph<string>, area: map<nat, nat>, look: nat, from: nat, route: seq<nat>, d: nat)
    requires PathOf(area, look, from, route)
    requires exists r, ws :: PathOf(area, look, from, r) && BackWalk(g, r, ws) && SumOf(ws) == d
    ensures exists ws :: BackWalk(g, route, ws) && SumOf(ws) == d
  {
    var r, ws :| PathOf(area, look, from, r) && BackWalk(g, r, ws) && SumOf(ws) == d;
    PathOfUnique(area, look, from, route, r);
  }

  /** `frames`: Dijkstra from `from` towards `look`; after each traced
      group is painted `checkedSymbol` a picture is taken, then each node of
      the route back from `look` is painted `pathSymbol` and pictured. A
      source without links, or a `look` with no predecessor, makes the
      source panic on `unwrap`: then `ok` is false and the frames taken so
      far are returned. The ghost results are Dijkstra's: its trace, its
      predecessor map `search` (absent when `from` has no links), its
      distances and the order in which it checked nodes; the route is the
      walk back through `search`, a cheapest one. */
  method Frames(m: MatrixPane, from: nat, look: nat, pathSymbol: string, checkedSymbol: string)
    returns (frames: seq<string>, ok: bool, ghost trace: seq<seq<nat>>, ghost route: seq<nat>,
             ghost search: Option<map<nat, nat>>, ghost distances: map<nat, nat>, ghost rank: map<nat, nat>)
    requires m.Valid() && m.width > 0 && from < |m.gh| && CleanPayloads(m.gh)
    requires NoNewline(pathSymbol) && NoNewline(checkedSymbol)
    modifies m
    ensures m.Valid()
    ensures frames == TracePictures(old(m.gh), trace, |trace|, checkedSymbol, m.width, m.hight) +
      RoutePictures(Painted(old(m.gh), Upto(trace, |trace|), checkedSymbol), route, |route|, pathSymbol, m.width, m.hight)
    ensures m.gh == Painted(Painted(old(m.gh), Upto(trace, |trace|), checkedSymbol), Members(route), pathSymbol)
    ensures ok ==> |route| >= 2 && route[0] == look && route[|route| - 1] == from
    ensures ok ==> forall i :: 0 <= i < |route| - 1 ==> Adjacent(m.width, route[i + 1], route[i])
    ensures !ok ==> route == []
    ensures !ok ==> old(m.gh)[from].edges.None? || look == from || !Reachable(old(m.gh), from, look)
    ensures old(m.gh)[from].edges.None? ==> !ok
    ensures Explored(old(m.gh), from, look, trace, search, distances, rank)
    ensures ok <==> search.Some? && look in search.value
    ensures ok ==> PathOf(search.value, look, from, route)
    ensures ok && look != from ==>
      look in distances && Least(old(m.gh), from, look, distances[look]) &&
      exists ws :: BackWalk(old(m.gh), route, ws) && SumOf(ws) == distances[look]
  {
    ghost var g0 := m.gh;
    var steps, result;
    steps, result, distances, rank := Explore(m.gh, m.width, from, look);
    trace, search := steps, result;
    frames := TraceFrames(m, steps, checkedSymbol);
    PaintedClean(g0, Upto(trace, |trace|), checkedSymbol);
    var more;
    more, ok, route := FollowRoute(m, g0, result, from, look, pathSymbol);
    frames := frames + more;
    if ok && look != from {
      SameRoute(g0, result.value, look, from, route, distances[look]);
    }
  }
}
