/** The graph the search algorithms and the matrix pane work on. Its own
    source (the `Graph` type with `add_node`, `link` and `node_by_index`) is
    not part of this model; it is represented as an arena addressed by dense
    indices `0..n`, each node holding a payload and an optional ordered list
    of weighted outgoing links. `AddLink` assumes that `Graph::link`
    appends the link to the source node's list, creating the list when
    absent. */
module Arena {

  datatype Option<T> = None | Some(value: T)

  /** An outgoing edge: the index of its target and its weight. */
  datatype Link = Link(to: nat, weight: nat)

  /** A node: its payload and its edge list, absent until the first link. */
  datatype Node<T> = Node(data: T, edges: Option<seq<Link>>)

  type Graph<T> = seq<Node<T>>

  /** The outgoing links of `u`, empty when it has no list. */
  function Edges<T>(g: Graph<T>, u: nat): (r: seq<Link>)
    requires u < |g|
    ensures g[u].edges.None? ==> r == []
    ensures g[u].edges.Some? ==> r == g[u].edges.value
  {
    if g[u].edges.Some? then g[u].edges.value else []
  }

  /** The targets of `u`'s links, in list order. */
  function Targets<T>(g: Graph<T>, u: nat): (r: seq<nat>)
    requires u < |g|
    ensures |r| == |Edges(g, u)|
    ensures forall i :: 0 <= i < |r| ==> r[i] == Edges(g, u)[i].to
  {
    seq(|Edges(g, u)|, i requires 0 <= i < |Edges(g, u)| => Edges(g, u)[i].to)
  }

  /** Every link points at a node of the arena. */
  predicate WellFormed<T>(g: Graph<T>) {
    forall u, i :: 0 <= u < |g| && 0 <= i < |Edges(g, u)| ==> Edges(g, u)[i].to < |g|
  }

  /** There is a link from `u` to `v` of weight `w`. */
  predicate HasLink<T>(g: Graph<T>, u: nat, v: nat, w: nat) {
    u < |g| && Link(v, w) in Edges(g, u)
  }

  /** `Graph::link(from, to, weight)`: the link is appended to `from`'s list,
      which is created when absent; nothing else changes. */
  function AddLink<T>(g: Graph<T>, from: nat, to: nat, weight: nat): (r: Graph<T>)
    requires from < |g| && to < |g|
    ensures |r| == |g|
    ensures Edges(r, from) == Edges(g, from) + [Link(to, weight)]
    ensures r[from].edges.Some? && r[from].data == g[from].data
    ensures forall u :: 0 <= u < |g| && u != from ==> r[u] == g[u]
  {
    g[from := g[from].(edges := Some(Edges(g, from) + [Link(to, weight)]))]
  }

  lemma LinkTarget<T>(g: Graph<T>, u: nat, l: Link)
    requires u < |g| && l in Edges(g, u)
    ensures l.to in Targets(g, u)
  {
    var i :| 0 <= i < |Edges(g, u)| && Edges(g, u)[i] == l;
    assert Targets(g, u)[i] == l.to;
  }

  /** A walk along links: consecutive nodes are joined by a link. */
  predicate IsWalk<T>(g: Graph<T>, p: seq<nat>) {
    |p| >= 1 &&
    (forall i :: 0 <= i < |p| ==> p[i] < |g|) &&
    (forall i :: 0 <= i < |p| - 1 ==> p[i + 1] in Targets(g, p[i]))
  }

  /** `t` can be reached from `s` by following links. */
  ghost predicate Reachable<T>(g: Graph<T>, s: nat, t: nat) {
    exists p :: IsWalk(g, p) && p[0] == s && p[|p| - 1] == t
  }

  /** A set of nodes that holds `s` and every target of its members holds
      every node reachable from `s`. */
  lemma {:induction false} ClosedHoldsReachable<T>(g: Graph<T>, s: nat, closed: set<nat>, p: seq<nat>)
    requires s in closed
    requires forall u, t :: u in closed && u < |g| && t in Targets(g, u) ==> t in closed
    requires IsWalk(g, p) && p[0] == s
    ensures p[|p| - 1] in closed
  {
    if |p| > 1 {
      var q := p[..|p| - 1];
      ClosedHoldsReachable(g, s, closed, q);
      assert p[|p| - 1] in Targets(g, q[|q| - 1]);
    }
  }

  /** The total weight of a list of link weights. */
  function SumOf(s: seq<nat>): (r: nat)
    ensures s == [] ==> r == 0
  {
    if s == [] then 0 else s[0] + SumOf(s[1..])
  }

  lemma {:induction false} SumOfAppend(a: seq<nat>, b: seq<nat>)
    ensures SumOf(a + b) == SumOf(a) + SumOf(b)
  {
    if a != [] {
      assert (a + b)[1..] == a[1..] + b;
      SumOfAppend(a[1..], b);
    } else {
      assert a + b == b;
    }
  }

  function Reversed<X>(s: seq<X>): seq<X> {
    seq(|s|, i requires 0 <= i < |s| => s[|s| - 1 - i])
  }

  lemma {:induction false} SumOfReversed(s: seq<nat>)
    ensures SumOf(Reversed(s)) == SumOf(s)
  {
    if s != [] {
      assert Reversed(s) == Reversed(s[1..]) + [s[0]];
      SumOfAppend(Reversed(s[1..]), [s[0]]);
      SumOfReversed(s[1..]);
      assert SumOf([s[0]]) == s[0] + SumOf([s[0]][1..]);
    }
  }

  /** A walk that follows links: `p` visits the nodes and `w[i]` is the
      weight of a link from `p[i]` to `p[i + 1]`. */
  ghost predicate LinkWalk<T>(g: Graph<T>, p: seq<nat>, w: seq<nat>) {
    |p| >= 1 && |w| == |p| - 1 &&
    (forall i :: 0 <= i < |p| ==> p[i] < |g|) &&
    (forall i :: 0 <= i < |w| ==> Link(p[i + 1], w[i]) in Edges(g, p[i]))
  }

  /** The part of a walk from its `i`-th node on, and its weight. */
  lemma LinkWalkSuffix<T>(g: Graph<T>, p: seq<nat>, w: seq<nat>, i: nat)
    requires LinkWalk(g, p, w) && i < |p|
    ensures LinkWalk(g, p[i..], w[i..]) && SumOf(w) == SumOf(w[..i]) + SumOf(w[i..])
  {
    var p', w' := p[i..], w[i..];
    forall j | 0 <= j < |w'| ensures Link(p'[j + 1], w'[j]) in Edges(g, p'[j]) {
      assert Link(p[i + j + 1], w[i + j]) in Edges(g, p[i + j]);
    }
    assert w == w[..i] + w';
    SumOfAppend(w[..i], w');
  }

  /** A route read backwards, as `path` returns one: `r[i]` is reached from
      `r[i + 1]` over a link of weight `ws[i]`. */
  ghost predicate BackWalk<T>(g: Graph<T>, r: seq<nat>, ws: seq<nat>) {
    |r| >= 1 && |ws| == |r| - 1 &&
    (forall i :: 0 <= i < |r| ==> r[i] < |g|) &&
    (forall i :: 0 <= i < |ws| ==> Link(r[i], ws[i]) in Edges(g, r[i + 1]))
  }

  /** No walk from `s` to `t` weighs less than `d`. */
  ghost predicate Least<T>(g: Graph<T>, s: nat, t: nat, d: nat) {
    forall p, w :: LinkWalk(g, p, w) && p[0] == s && p[|p| - 1] == t ==> d <= SumOf(w)
  }

  /** Read forwards, a back-walk is a walk of the same weight. */
  lemma BackWalkReversed<T>(g: Graph<T>, r: seq<nat>, ws: seq<nat>)
    requires BackWalk(g, r, ws)
    ensures LinkWalk(g, Reversed(r), Reversed(ws)) && SumOf(Reversed(ws)) == SumOf(ws)
    ensures Reversed(r)[0] == r[|r| - 1] && Reversed(r)[|r| - 1] == r[0]
  {
    SumOfReversed(ws);
    var p, w := Reversed(r), Reversed(ws);
    forall i | 0 <= i < |w| ensures Link(p[i + 1], w[i]) in Edges(g, p[i]) {
      var j := |ws| - 1 - i;
      assert Link(r[j], ws[j]) in Edges(g, r[j + 1]);
    }
  }

  /** Two routes from `t` back to `s` that are both least weigh the same,
      whichever search produced them. */
  lemma LeastRoutesAgree<T>(g: Graph<T>, s: nat, t: nat, r1: seq<nat>, ws1: seq<nat>, r2: seq<nat>, ws2: seq<nat>)
    requires BackWalk(g, r1, ws1) && r1[0] == t && r1[|r1| - 1] == s && Least(g, s, t, SumOf(ws1))
    requires BackWalk(g, r2, ws2) && r2[0] == t && r2[|r2| - 1] == s && Least(g, s, t, SumOf(ws2))
    ensures SumOf(ws1) == SumOf(ws2)
  {
    BackWalkReversed(g, r1, ws1);
    BackWalkReversed(g, r2, ws2);
  }
}
