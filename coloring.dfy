/** Greedy colouring of the arena graph (`color_gh` and `mark_node`): a
    depth-first pass from node 0 that colours every node after its
    out-neighbours, with the least colour none of them has. */
module Coloring {
  import opened Arena
  import opened Text

  /** `m` is the least colour that does not occur in `s`. */
  predicate IsMex(s: seq<nat>, m: nat) {
    m !in s && forall c :: 0 <= c < m ==> c in s
  }

  /** The least missing colour is unique. */
  lemma MexUnique(s: seq<nat>, a: nat, b: nat)
    requires IsMex(s, a) && IsMex(s, b)
    ensures a == b
  {
  }

  /** The colours below `m`. */
  function Palette(m: nat): (r: set<nat>)
    ensures forall c: nat :: c in r <==> c < m
    ensures |r| == m
  {
    if m == 0 then {} else Palette(m - 1) + {m - 1}
  }

  /** The colours `0..m` all occur in `s`, so there are no more than `|s|`
      of them: a greedy colour never exceeds the number of neighbours. */
  lemma MexBound(s: seq<nat>, m: nat)
    requires IsMex(s, m)
    ensures m <= |s|
  {
    SeqSetCard(s);
    assert Palette(m) <= Elements(s);
    SubsetCard(Palette(m), Elements(s));
  }

  function Elements(s: seq<nat>): set<nat> {
    set x | x in s
  }

  lemma {:induction false} SeqSetCard(s: seq<nat>)
    ensures |Elements(s)| <= |s|
  {
    if s != [] {
      var t := s[..|s| - 1];
      SeqSetCard(t);
      var last := s[|s| - 1];
      assert s == t + [last];
      if last in Elements(t) {
        assert Elements(s) == Elements(t);
      } else {
        assert Elements(s) == Elements(t) + {last};
      }
    }
  }

  lemma {:induction false} SubsetCard(a: set<nat>, b: set<nat>)
    requires a <= b
    ensures |a| <= |b|
  {
    if a != {} {
      var x :| x in a;
      SubsetCard(a - {x}, b - {x});
    }
  }

  /** The colour loop of `mark_node`: start from the largest neighbour
      colour and scan `0..max` for the first colour no neighbour has; the
      result is that colour, or `max + 1` when there is none. */
  method UnusedColor(neighborsColors: seq<nat>) returns (color: nat)
    requires |neighborsColors| > 0
    ensures IsMex(neighborsColors, color)
  {
    var top := Largest(neighborsColors);
    var unused: int := top;
    var minColor: nat := 0;
    for c := 0 to top
      invariant minColor == c
      invariant unused == top
      invariant forall d :: 0 <= d < minColor ==> d in neighborsColors
    {
      if minColor !in neighborsColors {
        unused := minColor - 1;
        break;
      }
      minColor := minColor + 1;
    }
    color := unused + 1;
  }

  /** The colours of `ts`, in order. */
  function ColorsOf(colors: map<nat, nat>, ts: seq<nat>): seq<nat>
    requires forall k :: 0 <= k < |ts| ==> ts[k] in colors
  {
    seq(|ts|, k requires 0 <= k < |ts| => colors[ts[k]])
  }

  /** Every link goes down in `rank`: the graph has no cycle. */
  ghost predicate Ranked<T>(g: Graph<T>, rank: seq<nat>) {
    WellFormed(g) && |rank| == |g| &&
    forall u, k :: 0 <= u < |g| && 0 <= k < |Targets(g, u)| ==> rank[Targets(g, u)[k]] < rank[u]
  }

  ghost predicate Acyclic<T>(g: Graph<T>) {
    exists rank :: Ranked(g, rank)
  }

  /** Every edge list that exists holds a link (`max().unwrap()` panics on
      a node whose list is present but empty). */
  predicate NoEmptyLists<T>(g: Graph<T>) {
    forall u :: 0 <= u < |g| && g[u].edges.Some? ==> |g[u].edges.value| > 0
  }

  /** Node `u`'s colour is the one `mark_node` gives it: 0 for a node
      without an edge list, otherwise the least colour none of its
      neighbours has, all of which are coloured. */
  ghost predicate Fits<T>(g: Graph<T>, colors: map<nat, nat>, u: nat)
    requires u < |g| && u in colors
  {
    if g[u].edges.None? then colors[u] == 0
    else
      (forall k :: 0 <= k < |Targets(g, u)| ==> Targets(g, u)[k] in colors) &&
      IsMex(ColorsOf(colors, Targets(g, u)), colors[u])
  }

  /** Every coloured node is a node of `g` and carries the colour it fits. */
  ghost predicate Colored<T>(g: Graph<T>, colors: map<nat, nat>) {
    forall u :: u in colors ==> u < |g| && Fits(g, colors, u)
  }

  /** Every key of `colors0` keeps its colour in `colors`. */
  ghost predicate Extends(colors0: map<nat, nat>, colors: map<nat, nat>) {
    forall u :: u in colors0 ==> u in colors && colors[u] == colors0[u]
  }

  /** `c` is the colour `mark_node` gives `i` once its neighbours are
      coloured in `colors`. */
  ghost predicate FitsAt<T>(g: Graph<T>, colors: map<nat, nat>, i: nat, c: nat)
    requires i < |g|
  {
    if g[i].edges.None? then c == 0
    else
      (forall k :: 0 <= k < |Targets(g, i)| ==> Targets(g, i)[k] in colors) &&
      IsMex(ColorsOf(colors, Targets(g, i)), c)
  }

  /** Giving `i` the colour it fits keeps the map coloured and changes no
      existing colour. */
  lemma InsertFits<T>(g: Graph<T>, colors: map<nat, nat>, i: nat, c: nat)
    requires Colored(g, colors) && i < |g| && FitsAt(g, colors, i, c)
    ensures Colored(g, colors[i := c]) && Extends(colors, colors[i := c])
  {
    var next := colors[i := c];
    if i in colors {
      assert Fits(g, colors, i);
      if g[i].edges.Some? {
        MexUnique(ColorsOf(colors, Targets(g, i)), colors[i], c);
      }
      assert next == colors;
    } else {
      forall u | u in next ensures u < |g| && Fits(g, next, u) {
        if g[u].edges.Some? {
          if u != i {
            assert Fits(g, colors, u);
          }
          assert ColorsOf(next, Targets(g, u)) == ColorsOf(colors, Targets(g, u));
        }
      }
    }
  }

  /** `t` is one link away from `i`, so whatever `t` reaches `i` reaches. */
  lemma ReachThrough<T>(g: Graph<T>, i: nat, t: nat, u: nat)
    requires i < |g| && t in Targets(g, i) && Reachable(g, t, u)
    ensures Reachable(g, i, u)
  {
    var p :| IsWalk(g, p) && p[0] == t && p[|p| - 1] == u;
    var q := [i] + p;
    assert q[1..] == p;
    assert IsWalk(g, q);
  }

  lemma ReachSelf<T>(g: Graph<T>, i: nat)
    requires i < |g|
    ensures Reachable(g, i, i)
  {
    assert IsWalk(g, [i]);
  }

  /** The first loop of `mark_node`: the targets of `i`'s links, in order. */
  method NeighborIndices<T>(g: Graph<T>, i: nat) returns (neighbors: seq<nat>)
    requires i < |g| && g[i].edges.Some?
    ensures neighbors == Targets(g, i)
  {
    var edges := g[i].edges.value;
    neighbors := [];
    for k := 0 to |edges|
      invariant neighbors == Targets(g, i)[..k]
    {
      neighbors := neighbors + [edges[k].to];
    }
  }

  /** The third loop of `mark_node`: the neighbours' colours, in order. */
  method NeighborColors(colors: map<nat, nat>, neighbors: seq<nat>) returns (neighborsColors: seq<nat>)
    requires forall k :: 0 <= k < |neighbors| ==> neighbors[k] in colors
    ensures |neighborsColors| == |neighbors|
    ensures forall k :: 0 <= k < |neighbors| ==> neighborsColors[k] == colors[neighbors[k]]
  {
    neighborsColors := [];
    for k := 0 to |neighbors|
      invariant |neighborsColors| == k
      invariant forall j :: 0 <= j < k ==> neighborsColors[j] == colors[neighbors[j]]
    {
      neighborsColors := neighborsColors + [colors[neighbors[k]]];
    }
  }

  /** `mark_node`: colour the uncoloured neighbours first (recursively),
      then give `i` the least colour its neighbours lack; a node without an
      edge list gets 0. Every new key is reachable from `i`. */
  method MarkNode<T>(g: Graph<T>, i: nat, colors0: map<nat, nat>, ghost rank: seq<nat>)
    returns (colors: map<nat, nat>)
    requires i < |g| && Ranked(g, rank) && NoEmptyLists(g)
    requires Colored(g, colors0)
    ensures Colored(g, colors) && i in colors
    ensures Extends(colors0, colors)
    ensures forall u :: u in colors ==> u in colors0 || Reachable(g, i, u)
    decreases rank[i], 1
  {
    ReachSelf(g, i);
    if g[i].edges.None? {
      InsertFits(g, colors0, i, 0);
      colors := colors0[i := 0];
      return;
    }
    var neighbors := NeighborIndices(g, i);
    colors := MarkNeighbors(g, i, neighbors, colors0, rank);
    var neighborsColors := NeighborColors(colors, neighbors);
    var c := UnusedColor(neighborsColors);
    assert neighborsColors == ColorsOf(colors, Targets(g, i));
    InsertFits(g, colors, i, c);
    colors := colors[i := c];
  }

  /** The second loop of `mark_node`: each neighbour not yet coloured is
      marked, in order. */
  method MarkNeighbors<T>(g: Graph<T>, i: nat, neighbors: seq<nat>, colors0: map<nat, nat>, ghost rank: seq<nat>)
    returns (colors: map<nat, nat>)
    requires i < |g| && Ranked(g, rank) && NoEmptyLists(g) && neighbors == Targets(g, i)
    requires Colored(g, colors0)
    ensures Colored(g, colors) && Extends(colors0, colors)
    ensures forall k :: 0 <= k < |neighbors| ==> neighbors[k] in colors
    ensures forall u :: u in colors ==> u in colors0 || Reachable(g, i, u)
    decreases rank[i], 0
  {
    colors := colors0;
    for k := 0 to |neighbors|
      invariant Colored(g, colors) && Extends(colors0, colors)
      invariant forall j :: 0 <= j < k ==> neighbors[j] in colors
      invariant forall u :: u in colors ==> u in colors0 || Reachable(g, i, u)
    {
      if neighbors[k] !in colors {
        ghost var before := colors;
        colors := MarkNode(g, neighbors[k], colors, rank);
        forall u | u in colors && u !in colors0 ensures Reachable(g, i, u) {
          if u !in before {
            ReachThrough(g, i, neighbors[k], u);
          }
        }
      }
    }
  }

  /** `color_gh`: colour the graph from node 0, starting with no colours. */
  method ColorGh<T>(g: Graph<T>) returns (colors: map<nat, nat>)
    requires |g| >= 1 && Acyclic(g) && NoEmptyLists(g)
    ensures Colored(g, colors) && 0 in colors
    ensures forall u :: u in colors <==> Reachable(g, 0, u)
  {
    ghost var rank :| Ranked(g, rank);
    colors := MarkNode(g, 0, map[], rank);
    forall u | Reachable(g, 0, u) ensures u in colors {
      var p :| IsWalk(g, p) && p[0] == 0 && p[|p| - 1] == u;
      ColoredClosed(g, colors);
      ClosedHoldsReachable(g, 0, colors.Keys, p);
    }
  }

  /** The coloured nodes are closed under links. */
  lemma ColoredClosed<T>(g: Graph<T>, colors: map<nat, nat>)
    requires Colored(g, colors)
    ensures forall u, t :: u in colors.Keys && u < |g| && t in Targets(g, u) ==> t in colors.Keys
  {
    forall u, t | u in colors.Keys && u < |g| && t in Targets(g, u) ensures t in colors.Keys {
      assert Fits(g, colors, u);
      var k :| 0 <= k < |Targets(g, u)| && Targets(g, u)[k] == t;
    }
  }

  /** The colouring is proper: no link joins two nodes of the same colour. */
  lemma ProperColoring<T>(g: Graph<T>, colors: map<nat, nat>, u: nat, k: nat)
    requires Colored(g, colors) && u in colors
    requires u < |g| && k < |Targets(g, u)|
    ensures Targets(g, u)[k] in colors
    ensures colors[Targets(g, u)[k]] != colors[u]
  {
    assert Fits(g, colors, u);
    assert ColorsOf(colors, Targets(g, u))[k] == colors[Targets(g, u)[k]];
  }

  /** A node's colour never exceeds its number of outgoing links. */
  lemma ColorBound<T>(g: Graph<T>, colors: map<nat, nat>, u: nat)
    requires Colored(g, colors) && u in colors
    ensures u < |g| && colors[u] <= |Edges(g, u)|
  {
    assert Fits(g, colors, u);
    if g[u].edges.Some? {
      MexBound(ColorsOf(colors, Targets(g, u)), colors[u]);
    }
  }
}
