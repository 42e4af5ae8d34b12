/** The search algorithms of graph/src/algorithm.rs over the node arena:
    Dijkstra with its per-iteration trace, A* with a caller-supplied
    heuristic, and the walk back along a predecessor map. Ordered maps and
    sets become Dafny maps and sets; iterating them in key order becomes a
    loop over the indices `0..n`. */
module Search {
  import opened Arena

  /** The selection at the top of `dijkstra_extra`'s loop: among the `dist`
      keys not yet checked, one of least distance; `min_by` keeps the first
      of equal candidates, so ties go to the smallest index. */
  method SelectMin(dist: map<nat, nat>, checked: set<nat>, n: nat) returns (found: bool, u: nat, weight: nat)
    requires forall k :: k in dist ==> k < n
    ensures found <==> exists k :: k in dist && k !in checked
    ensures found ==> u in dist && u !in checked && weight == dist[u]
    ensures found ==> forall k :: k in dist && k !in checked ==> dist[u] <= dist[k]
    ensures found ==> forall k :: k in dist && k !in checked && dist[k] == dist[u] ==> u <= k
  {
    found, u, weight := false, 0, 0;
    for k := 0 to n
      invariant found <==> exists j :: j in dist && j !in checked && j < k
      invariant found ==> u < k && u in dist && u !in checked && weight == dist[u]
      invariant found ==> forall j :: j in dist && j !in checked && j < k ==> dist[u] <= dist[j]
      invariant found ==> forall j :: j in dist && j !in checked && j < k && dist[j] == dist[u] ==> u <= j
    {
      if k in dist && k !in checked && (!found || dist[k] < weight) {
        found, u, weight := true, k, dist[k];
      }
    }
  }

  /** `p` may stand as `k`'s predecessor: a link `p -> k` whose weight, for
      every node but the source, is the difference of their distances. */
  ghost predicate RevLink<T>(g: Graph<T>, source: nat, dist: map<nat, nat>, p: nat, k: nat) {
    p < |g| && p in dist && k in dist &&
    exists l {:trigger l in Edges(g, p)} :: l in Edges(g, p) && l.to == k && (k != source ==> dist[k] == dist[p] + l.weight)
  }

  ghost predicate DistOk<T>(g: Graph<T>, source: nat, dist: map<nat, nat>) {
    (forall k :: k in dist ==> k < |g|) && source in dist && dist[source] == 0
  }

  /** Every predecessor is a node of `done` joined to its key by a link, and
      every reached node but the source has one. */
  ghost predicate RevOk<T>(g: Graph<T>, source: nat, rev: map<nat, nat>, dist: map<nat, nat>, done: set<nat>) {
    Preds(g, source, rev, dist, done) && (forall k :: k in dist && k != source ==> k in rev)
  }

  ghost predicate Preds<T>(g: Graph<T>, source: nat, rev: map<nat, nat>, dist: map<nat, nat>, done: set<nat>) {
    forall k {:trigger rev[k]} :: k in rev ==> rev[k] in done && RevLink(g, source, dist, rev[k], k)
  }

  /** Checked nodes are no farther than any reached node not yet checked. */
  ghost predicate Settled(checked: set<nat>, dist: map<nat, nat>) {
    (forall c :: c in checked ==> c in dist) &&
    (forall c, k :: c in checked && k in dist && k !in checked ==> dist[c] <= dist[k])
  }

  ghost predicate Frontier(checked: set<nat>, unchecked: set<nat>, dist: map<nat, nat>) {
    forall k :: k in dist && k !in checked ==> k in unchecked
  }

  /** One trace group: a node followed by the targets of its links. */
  predicate Group<T>(g: Graph<T>, group: seq<nat>) {
    |group| >= 1 && group[0] < |g| && group == [group[0]] + Targets(g, group[0])
  }

  /** The trace has one group per checked node, in the order they were
      checked (`rank`), at non-decreasing distance. */
  ghost predicate Traced<T>(g: Graph<T>, trace: seq<seq<nat>>, checked: set<nat>, rank: map<nat, nat>, dist: map<nat, nat>) {
    (forall i :: 0 <= i < |trace| ==> Group(g, trace[i]) && trace[i][0] in checked && trace[i][0] in dist) &&
    (forall c :: c in checked ==> c in rank && rank[c] < |trace| && trace[rank[c]][0] == c) &&
    (forall c :: c in rank ==> c in checked) &&
    (forall i, j :: 0 <= i < j < |trace| ==> trace[i][0] != trace[j][0]) &&
    (forall i, j :: 0 <= i < j < |trace| ==> dist[trace[i][0]] <= dist[trace[j][0]])
  }

  /** A checked node other than the source was reached from a node checked
      before it. */
  ghost predicate Ranked(source: nat, rev: map<nat, nat>, checked: set<nat>, rank: map<nat, nat>) {
    forall k {:trigger rev[k]} :: k in rev && k != source && k in checked ==>
      rev[k] in rank && k in rank && rank[rev[k]] < rank[k]
  }

  /** The targets of every checked node have been reached. */
  ghost predicate Closed<T>(g: Graph<T>, checked: set<nat>, dist: map<nat, nat>) {
    forall c, t :: c in checked && c < |g| && t in Targets(g, c) ==> t in dist
  }

  /** What one child of `u` does to the predecessor and distance maps: the
      target `k` gets `u` as predecessor when it has none, and a distance of
      `weight` plus the link's weight when it had none or that is strictly
      less, in which case its predecessor becomes `u` as well. */
  function RelaxedDist(dist1: map<nat, nat>, k: nat, tentative: nat): map<nat, nat> {
    if k in dist1 && tentative >= dist1[k] then dist1 else dist1[k := tentative]
  }

  function RelaxedRev(rev1: map<nat, nat>, dist1: map<nat, nat>, u: nat, k: nat, tentative: nat): map<nat, nat> {
    if k in dist1 && tentative < dist1[k] then rev1[k := u]
    else if k in rev1 then rev1
    else rev1[k := u]
  }

  ghost predicate Relaxed(rev1: map<nat, nat>, dist1: map<nat, nat>, rev: map<nat, nat>, dist: map<nat, nat>,
                          u: nat, k: nat, tentative: nat) {
    dist == RelaxedDist(dist1, k, tentative) && rev == RelaxedRev(rev1, dist1, u, k, tentative)
  }

  /** The invariant of the expansion loop. */
  ghost predicate Expanding<T>(g: Graph<T>, source: nat, u: nat, weight: nat, checked: set<nat>,
                               rev: map<nat, nat>, dist: map<nat, nat>, unchecked: set<nat>) {
    DistOk(g, source, dist) && RevOk(g, source, rev, dist, checked + {u}) &&
    Settled(checked, dist) && Frontier(checked + {u}, unchecked, dist) &&
    u in dist && dist[u] == weight &&
    (forall k :: k in dist && k !in checked ==> weight <= dist[k])
  }

  /** A predecessor entry other than `k`'s survives a change at `k` when the
      distances of checked nodes and of `u` stay put. */
  lemma RevLinkKept<T>(g: Graph<T>, source: nat, dist1: map<nat, nat>, dist: map<nat, nat>, p: nat, q: nat)
    requires RevLink(g, source, dist1, p, q)
    requires p in dist && q in dist && dist[p] == dist1[p] && dist[q] == dist1[q]
    ensures RevLink(g, source, dist, p, q)
  {
    var l :| l in Edges(g, p) && l.to == q && (q != source ==> dist1[q] == dist1[p] + l.weight);
  }

  lemma RelaxRev<T>(g: Graph<T>, source: nat, u: nat, weight: nat, checked: set<nat>,
                    rev1: map<nat, nat>, dist1: map<nat, nat>, rev: map<nat, nat>, dist: map<nat, nat>, child: Link)
    requires WellFormed(g) && u < |g| && child in Edges(g, u)
    requires DistOk(g, source, dist1) && RevOk(g, source, rev1, dist1, checked + {u})
    requires Settled(checked, dist1) && u in dist1 && dist1[u] == weight && u !in checked
    requires forall k :: k in dist1 && k !in checked ==> weight <= dist1[k]
    requires Relaxed(rev1, dist1, rev, dist, u, child.to, child.weight + weight)
    ensures Preds(g, source, rev, dist, checked + {u})
  {
    var k := child.to;
    var tentative := child.weight + weight;
    forall p {:trigger rev[p]} | p in rev ensures rev[p] in checked + {u} && RevLink(g, source, dist, rev[p], p) {
      if p == k && (p !in rev1 || rev[p] != rev1[p] || dist[p] != dist1[p]) {
        assert rev[p] == u;
        assert child in Edges(g, u) && child.to == p;
      } else {
        var q := rev1[p];
        assert rev[p] == q;
        assert q in checked + {u};
        if q in checked {
          assert dist1[q] <= weight;
        }
        RevLinkKept(g, source, dist1, dist, q, p);
      }
    }
  }

  lemma RelaxKeys(source: nat, u: nat, weight: nat, checked: set<nat>,
                  rev1: map<nat, nat>, dist1: map<nat, nat>, rev: map<nat, nat>, dist: map<nat, nat>, k: nat, tentative: nat)
    requires forall p :: p in dist1 && p != source ==> p in rev1
    requires Settled(checked, dist1) && u in dist1 && dist1[u] == weight && u !in checked
    requires forall p :: p in dist1 && p !in checked ==> weight <= dist1[p]
    requires tentative >= weight
    requires Relaxed(rev1, dist1, rev, dist, u, k, tentative)
    ensures forall p :: p in dist && p != source ==> p in rev
    ensures forall c {:trigger rev1[c]} :: c in checked && c in rev1 ==> c in rev && rev[c] == rev1[c]
    ensures u != source ==> rev[u] == rev1[u]
  {
    if k in dist1 && tentative < dist1[k] {
      assert k !in checked && k != u;
    }
  }

  /** What expanding `u` leaves alone: the distances of checked nodes, the
      reached set (which only grows, its distances only falling), and the
      predecessors of checked nodes and of `u`. */
  ghost predicate Kept(source: nat, u: nat, checked: set<nat>,
                       rev0: map<nat, nat>, dist0: map<nat, nat>, rev: map<nat, nat>, dist: map<nat, nat>) {
    (forall c :: c in checked ==> c in dist0 ==> c in dist && dist[c] == dist0[c]) &&
    (forall k :: k in dist0 ==> k in dist && dist[k] <= dist0[k]) &&
    (forall k {:trigger rev0[k]} :: k in checked && k in rev0 ==> k in rev && rev[k] == rev0[k]) &&
    (u != source ==> u in rev0 ==> u in rev && rev[u] == rev0[u])
  }

  lemma KeptTrans(source: nat, u: nat, checked: set<nat>, rev0: map<nat, nat>, dist0: map<nat, nat>,
                  rev1: map<nat, nat>, dist1: map<nat, nat>, rev: map<nat, nat>, dist: map<nat, nat>)
    requires Kept(source, u, checked, rev0, dist0, rev1, dist1)
    requires Kept(source, u, checked, rev1, dist1, rev, dist)
    ensures Kept(source, u, checked, rev0, dist0, rev, dist)
  {
    forall k | k in checked && k in rev0 ensures k in rev && rev[k] == rev0[k] {
      assert rev1[k] == rev0[k];
    }
  }

  lemma RelaxDist<T>(g: Graph<T>, source: nat, u: nat, weight: nat, checked: set<nat>,
                     dist1: map<nat, nat>, unchecked1: set<nat>, dist: map<nat, nat>, child: Link)
    requires WellFormed(g) && u < |g| && child in Edges(g, u) && u !in checked
    requires DistOk(g, source, dist1) && Settled(checked, dist1) && Frontier(checked + {u}, unchecked1, dist1)
    requires u in dist1 && dist1[u] == weight
    requires forall k :: k in dist1 && k !in checked ==> weight <= dist1[k]
    requires dist == RelaxedDist(dist1, child.to, child.weight + weight)
    ensures DistOk(g, source, dist)
    ensures Settled(checked, dist) && Frontier(checked + {u}, unchecked1 + {child.to}, dist)
    ensures u in dist && dist[u] == weight
    ensures forall k :: k in dist && k !in checked ==> weight <= dist[k]
    ensures forall c :: c in checked ==> dist[c] == dist1[c]
    ensures forall k :: k in dist1 ==> k in dist && dist[k] <= dist1[k]
    ensures child.to in dist && dist[child.to] <= weight + child.weight
  {
    var k := child.to;
    var tentative := child.weight + weight;
    var i :| 0 <= i < |Edges(g, u)| && Edges(g, u)[i] == child;
    assert k < |g|;
    if k in dist1 && tentative >= dist1[k] {
      assert dist == dist1;
    } else {
      assert dist == dist1[k := tentative];
      assert k !in checked && k != u && k != source;
      forall c, k' | c in checked && k' in dist && k' !in checked ensures dist[c] <= dist[k'] {
        if k' != k {
          assert dist1[c] <= dist1[k'];
        }
      }
    }
  }

  lemma RelaxPreserves<T>(g: Graph<T>, source: nat, u: nat, weight: nat, checked: set<nat>,
                          rev1: map<nat, nat>, dist1: map<nat, nat>, unchecked1: set<nat>,
                          rev: map<nat, nat>, dist: map<nat, nat>, child: Link)
    requires WellFormed(g) && u < |g| && child in Edges(g, u) && u !in checked
    requires Expanding(g, source, u, weight, checked, rev1, dist1, unchecked1)
    requires Relaxed(rev1, dist1, rev, dist, u, child.to, child.weight + weight)
    ensures Expanding(g, source, u, weight, checked, rev, dist, unchecked1 + {child.to})
    ensures Kept(source, u, checked, rev1, dist1, rev, dist)
    ensures child.to in dist && dist[child.to] <= weight + child.weight
  {
    RelaxDist(g, source, u, weight, checked, dist1, unchecked1, dist, child);
    RelaxRev(g, source, u, weight, checked, rev1, dist1, rev, dist, child);
    RelaxKeys(source, u, weight, checked, rev1, dist1, rev, dist, child.to, child.weight + weight);
  }

  lemma TargetsPrefix<T>(g: Graph<T>, u: nat, j: nat)
    requires u < |g| && j < |Edges(g, u)|
    ensures Edges(g, u)[j] in Edges(g, u)
    ensures Targets(g, u)[..j + 1] == Targets(g, u)[..j] + [Edges(g, u)[j].to]
  {
  }

  /** One child of the expansion: `rev.entry(k).or_insert(u)`, then the
      distance of `k` is set, or lowered when `tentative` is strictly less, in
      which case the predecessor of `k` becomes `u`. */
  method Relax(rev0: map<nat, nat>, dist0: map<nat, nat>, u: nat, k: nat, tentative: nat)
    returns (rev: map<nat, nat>, dist: map<nat, nat>)
    ensures Relaxed(rev0, dist0, rev, dist, u, k, tentative)
  {
    rev, dist := rev0, dist0;
    if k !in rev {
      rev := rev[k := u];
    }
    if k in dist {
      if tentative < dist[k] {
        dist := dist[k := tentative];
        rev := rev[k := u];
      }
    } else {
      dist := dist[k := tentative];
    }
  }

  /** One child link of `u`: relax its target and record it in the trace
      group. */
  method Visit<T>(g: Graph<T>, source: nat, u: nat, weight: nat, ghost checked: set<nat>,
                  ghost rev0: map<nat, nat>, ghost dist0: map<nat, nat>,
                  rev1: map<nat, nat>, dist1: map<nat, nat>, unchecked1: set<nat>, group1: seq<nat>, child: Link)
    returns (rev: map<nat, nat>, dist: map<nat, nat>, unchecked: set<nat>, group: seq<nat>)
    requires WellFormed(g) && u < |g| && child in Edges(g, u) && u !in checked
    requires Expanding(g, source, u, weight, checked, rev1, dist1, unchecked1)
    requires Kept(source, u, checked, rev0, dist0, rev1, dist1)
    requires forall t :: t in group1 ==> t in dist1
    ensures Expanding(g, source, u, weight, checked, rev, dist, unchecked)
    ensures Kept(source, u, checked, rev0, dist0, rev, dist)
    ensures group == group1 + [child.to]
    ensures forall t :: t in group ==> t in dist
    ensures child.to in dist && dist[child.to] <= weight + child.weight
    ensures forall k :: k in dist1 ==> k in dist && dist[k] <= dist1[k]
  {
    rev, dist := Relax(rev1, dist1, u, child.to, child.weight + weight);
    unchecked := unchecked1 + {child.to};
    group := group1 + [child.to];
    ghost var k, t := child.to, child.weight + weight;
    RelaxPreserves(g, source, u, weight, checked, rev1, dist1, unchecked1,
                   RelaxedRev(rev1, dist1, u, k, t), RelaxedDist(dist1, k, t), child);
    KeptTrans(source, u, checked, rev0, dist0, rev1, dist1, rev, dist);
  }

  /** The `for child in edges` loop of `dijkstra_extra`, run on a node `u`
      of least distance among those not yet checked. */
  method Expand<T>(g: Graph<T>, source: nat, u: nat, weight: nat,
                   rev0: map<nat, nat>, dist0: map<nat, nat>, unchecked0: set<nat>, ghost checked: set<nat>)
    returns (rev: map<nat, nat>, dist: map<nat, nat>, unchecked: set<nat>, group: seq<nat>)
    requires WellFormed(g) && u < |g| && u !in checked
    requires Expanding(g, source, u, weight, checked, rev0, dist0, unchecked0)
    ensures group == [u] + Targets(g, u)
    ensures Expanding(g, source, u, weight, checked, rev, dist, unchecked)
    ensures Kept(source, u, checked, rev0, dist0, rev, dist)
    ensures forall t :: t in group ==> t in dist
    ensures forall l :: l in Edges(g, u) ==> l.to in dist && dist[l.to] <= weight + l.weight
  {
    rev, dist, unchecked, group := rev0, dist0, unchecked0, [u];
    var edges := Edges(g, u);
    for j := 0 to |edges|
      invariant group == [u] + Targets(g, u)[..j]
      invariant Expanding(g, source, u, weight, checked, rev, dist, unchecked)
      invariant Kept(source, u, checked, rev0, dist0, rev, dist)
      invariant forall t :: t in group ==> t in dist
      invariant ReachedThrough(g, u, weight, dist, j)
    {
      TargetsPrefix(g, u, j);
      ghost var dist1 := dist;
      rev, dist, unchecked, group := Visit(g, source, u, weight, checked, rev0, dist0, rev, dist, unchecked, group, edges[j]);
      ReachedThroughStep(g, u, weight, dist1, dist, j);
    }
    assert Targets(g, u)[..|edges|] == Targets(g, u);
    ReachedThroughAll(g, u, weight, dist);
  }

  /** The targets of `u`'s first `j` links are reached no farther than
      through those links. */
  ghost predicate ReachedThrough<T>(g: Graph<T>, u: nat, weight: nat, dist: map<nat, nat>, j: nat)
    requires u < |g| && j <= |Edges(g, u)|
  {
    forall i :: 0 <= i < j ==> Edges(g, u)[i].to in dist && dist[Edges(g, u)[i].to] <= weight + Edges(g, u)[i].weight
  }

  lemma ReachedThroughStep<T>(g: Graph<T>, u: nat, weight: nat, dist1: map<nat, nat>, dist: map<nat, nat>, j: nat)
    requires u < |g| && j < |Edges(g, u)| && ReachedThrough(g, u, weight, dist1, j)
    requires forall k :: k in dist1 ==> k in dist && dist[k] <= dist1[k]
    requires Edges(g, u)[j].to in dist && dist[Edges(g, u)[j].to] <= weight + Edges(g, u)[j].weight
    ensures ReachedThrough(g, u, weight, dist, j + 1)
  {
  }

  lemma ReachedThroughAll<T>(g: Graph<T>, u: nat, weight: nat, dist: map<nat, nat>)
    requires u < |g| && ReachedThrough(g, u, weight, dist, |Edges(g, u)|)
    ensures forall l :: l in Edges(g, u) ==> l.to in dist && dist[l.to] <= weight + l.weight
  {
  }

  /** Following `area` from any ranked key other than `to` lands on a key of
      smaller rank: the walk of `path` towards `to` cannot cycle. */
  ghost predicate PathRanked(area: map<nat, nat>, rank: map<nat, nat>, to: nat) {
    forall k {:trigger area[k]} :: k in area && k in rank && k != to ==>
      area[k] in rank && rank[area[k]] < rank[k]
  }

  lemma DijkstraRanked<T>(g: Graph<T>, source: nat, rev: map<nat, nat>, dist: map<nat, nat>,
                          trace: seq<seq<nat>>, checked: set<nat>, rank: map<nat, nat>)
    requires RevOk(g, source, rev, dist, checked) && Traced(g, trace, checked, rank, dist)
    requires Ranked(source, rev, checked, rank)
    ensures PathRanked(rev, rank, source)
    ensures forall k {:trigger rev[k]} :: k in rev ==>
      rev[k] in rank && exists i :: 0 <= i < |trace| && trace[i][0] == rev[k]
  {
    forall k | k in rev ensures rev[k] in rank && exists i :: 0 <= i < |trace| && trace[i][0] == rev[k] {
      assert rev[k] in checked;
      assert trace[rank[rev[k]]][0] == rev[k];
    }
  }

  /** The indices `0..n` of an arena with `n` nodes. */
  function Below(n: nat): (r: set<nat>)
    ensures forall k: nat :: k in r <==> k < n
  {
    if n == 0 then {} else Below(n - 1) + {n - 1}
  }

  /** Every link out of a checked node has been relaxed: its target is
      reached, no farther than through that link. */
  ghost predicate RelaxedOut<T>(g: Graph<T>, checked: set<nat>, dist: map<nat, nat>) {
    forall c, l :: c in checked && c in dist && c < |g| && l in Edges(g, c) ==>
      l.to in dist && dist[l.to] <= dist[c] + l.weight
  }

  /** The distance of every checked node is the least weight of a walk to
      it from the source. */
  ghost predicate Exact<T>(g: Graph<T>, source: nat, checked: set<nat>, dist: map<nat, nat>) {
    forall c :: c in checked && c in dist ==> Least(g, source, c, dist[c])
  }

  /** A walk from the source to a node not yet checked leaves the checked
      set somewhere, at a reached node whose distance is at most the walk's
      weight. */
  lemma {:induction false} ExitBound<T>(g: Graph<T>, source: nat, checked: set<nat>, dist: map<nat, nat>,
                                        p: seq<nat>, w: seq<nat>)
    requires DistOk(g, source, dist) && (forall c :: c in checked ==> c in dist)
    requires RelaxedOut(g, checked, dist) && Exact(g, source, checked, dist)
    requires LinkWalk(g, p, w) && p[0] == source && p[|p| - 1] !in checked
    ensures exists k :: k in dist && k !in checked && dist[k] <= SumOf(w)
    decreases |p|
  {
    if |p| == 1 {
      assert source in dist && source !in checked && dist[source] <= SumOf(w);
    } else {
      var n := |p| - 1;
      var q, v := p[..n], w[..n - 1];
      assert LinkWalk(g, q, v);
      assert w == v + [w[n - 1]];
      SumOfAppend(v, [w[n - 1]]);
      assert SumOf([w[n - 1]]) == w[n - 1] + SumOf([w[n - 1]][1..]);
      if p[n - 1] !in checked {
        ExitBound(g, source, checked, dist, q, v);
      } else {
        assert dist[p[n - 1]] <= SumOf(v);
        assert Link(p[n], w[n - 1]) in Edges(g, p[n - 1]);
        assert p[n] in dist && dist[p[n]] <= SumOf(w);
      }
    }
  }

  /** The invariant of `dijkstra_extra`'s main loop. */
  ghost predicate DijkstraInv<T>(g: Graph<T>, source: nat, look: nat, rev: map<nat, nat>, dist: map<nat, nat>,
                                 unchecked: set<nat>, trace: seq<seq<nat>>, checked: set<nat>, rank: map<nat, nat>) {
    DistOk(g, source, dist) && RevOk(g, source, rev, dist, checked) &&
    Settled(checked, dist) && Frontier(checked, unchecked, dist) &&
    Traced(g, trace, checked, rank, dist) && Ranked(source, rev, checked, rank) &&
    Closed(g, checked, dist) && RelaxedOut(g, checked, dist) && Exact(g, source, checked, dist) &&
    look !in checked
  }

  /** The node dequeued next, of least distance among the unchecked ones,
      has its least distance. */
  lemma SelectedLeast<T>(g: Graph<T>, source: nat, look: nat, rev: map<nat, nat>, dist: map<nat, nat>,
                         unchecked: set<nat>, trace: seq<seq<nat>>, checked: set<nat>, rank: map<nat, nat>, u: nat)
    requires DijkstraInv(g, source, look, rev, dist, unchecked, trace, checked, rank)
    requires u in dist && u !in checked
    requires forall k :: k in dist && k !in checked ==> dist[u] <= dist[k]
    ensures Least(g, source, u, dist[u])
  {
    forall p, w | LinkWalk(g, p, w) && p[0] == source && p[|p| - 1] == u
      ensures dist[u] <= SumOf(w)
    {
      ExitBound(g, source, checked, dist, p, w);
    }
  }

  lemma TracedStep<T>(g: Graph<T>, u: nat, trace: seq<seq<nat>>, checked: set<nat>, rank: map<nat, nat>,
                      dist0: map<nat, nat>, dist: map<nat, nat>, group: seq<nat>)
    requires Traced(g, trace, checked, rank, dist0) && Settled(checked, dist0)
    requires u < |g| && u in dist0 && u !in checked && group == [u] + Targets(g, u)
    requires forall c :: c in checked ==> c in dist0 ==> c in dist && dist[c] == dist0[c]
    requires u in dist && dist[u] == dist0[u]
    ensures Traced(g, trace + [group], checked + {u}, rank[u := |trace|], dist)
  {
    var t := trace + [group];
    var r := rank[u := |trace|];
    forall i | 0 <= i < |t| ensures Group(g, t[i]) && t[i][0] in checked + {u} && t[i][0] in dist {
      if i < |trace| {
        assert t[i] == trace[i];
      }
    }
    assert forall c :: c in r ==> c in checked + {u};
    forall c | c in checked + {u} ensures c in r && r[c] < |t| && t[r[c]][0] == c {
      if c != u {
        assert t[r[c]] == trace[rank[c]];
      }
    }
    forall i, j | 0 <= i < j < |t| ensures t[i][0] != t[j][0] && dist[t[i][0]] <= dist[t[j][0]] {
      if j < |trace| {
        assert t[i] == trace[i] && t[j] == trace[j];
      } else {
        assert t[i] == trace[i] && t[j][0] == u;
        assert dist0[trace[i][0]] <= dist0[u];
      }
    }
  }

  lemma RankedStep(source: nat, u: nat, trace: seq<seq<nat>>, checked: set<nat>, rank: map<nat, nat>,
                   rev0: map<nat, nat>, dist0: map<nat, nat>, rev: map<nat, nat>, dist: map<nat, nat>)
    requires Ranked(source, rev0, checked, rank)
    requires forall k {:trigger rev0[k]} :: k in rev0 ==> rev0[k] in checked
    requires forall c :: c in checked ==> c in rank && rank[c] < |trace|
    requires forall k :: k in dist0 && k != source ==> k in rev0
    requires forall c :: c in checked ==> c in dist0
    requires u in dist0 && u !in checked
    requires Kept(source, u, checked, rev0, dist0, rev, dist)
    ensures Ranked(source, rev, checked + {u}, rank[u := |trace|])
  {
    var r := rank[u := |trace|];
    forall k | k in rev && k != source && k in checked + {u} ensures rev[k] in r && k in r && r[rev[k]] < r[k] {
      assert k in rev0 && rev[k] == rev0[k];
      assert rev0[k] in checked;
    }
  }

  lemma ClosedStep<T>(g: Graph<T>, u: nat, checked: set<nat>, dist0: map<nat, nat>, dist: map<nat, nat>, group: seq<nat>)
    requires Closed(g, checked, dist0) && u < |g|
    requires forall k :: k in dist0 ==> k in dist
    requires group == [u] + Targets(g, u) && forall t :: t in group ==> t in dist
    ensures Closed(g, checked + {u}, dist)
  {
    forall c, t | c in checked + {u} && c < |g| && t in Targets(g, c) ensures t in dist {
      if c == u {
        assert t in group;
      }
    }
  }

  /** Checking `u` keeps the main-loop invariant: the expansion results
      (or, for a sealed node, the unchanged maps) together with the trace
      group `[u] + targets`. */
  lemma CheckStep<T>(g: Graph<T>, source: nat, look: nat, u: nat, weight: nat,
                     rev0: map<nat, nat>, dist0: map<nat, nat>, unchecked0: set<nat>,
                     trace: seq<seq<nat>>, checked: set<nat>, rank: map<nat, nat>,
                     rev: map<nat, nat>, dist: map<nat, nat>, unchecked: set<nat>, group: seq<nat>)
    requires WellFormed(g) && u < |g| && u != look
    requires DijkstraInv(g, source, look, rev0, dist0, unchecked0, trace, checked, rank)
    requires u in dist0 && u !in checked && dist0[u] == weight
    requires Expanding(g, source, u, weight, checked, rev, dist, unchecked)
    requires Kept(source, u, checked, rev0, dist0, rev, dist)
    requires group == [u] + Targets(g, u) && forall t :: t in group ==> t in dist
    requires Least(g, source, u, weight)
    requires forall l :: l in Edges(g, u) ==> l.to in dist && dist[l.to] <= weight + l.weight
    ensures DijkstraInv(g, source, look, rev, dist, unchecked, trace + [group], checked + {u}, rank[u := |trace|])
  {
    TracedStep(g, u, trace, checked, rank, dist0, dist, group);
    RankedStep(source, u, trace, checked, rank, rev0, dist0, rev, dist);
    ClosedStep(g, u, checked, dist0, dist, group);
    RelaxedOutStep(g, u, weight, checked, dist0, dist);
  }

  lemma RelaxedOutStep<T>(g: Graph<T>, u: nat, weight: nat, checked: set<nat>, dist0: map<nat, nat>, dist: map<nat, nat>)
    requires RelaxedOut(g, checked, dist0) && (forall c :: c in checked ==> c in dist0)
    requires forall c :: c in checked ==> c in dist && dist[c] == dist0[c]
    requires forall k :: k in dist0 ==> k in dist && dist[k] <= dist0[k]
    requires u < |g| && u in dist && dist[u] == weight
    requires forall l :: l in Edges(g, u) ==> l.to in dist && dist[l.to] <= weight + l.weight
    ensures RelaxedOut(g, checked + {u}, dist)
  {
    forall c, l | c in checked + {u} && c in dist && c < |g| && l in Edges(g, c)
      ensures l.to in dist && dist[l.to] <= dist[c] + l.weight
    {
      if c != u {
        assert l.to in dist0 && dist0[l.to] <= dist0[c] + l.weight;
      }
    }
  }

  /** What a finished run promises about its trace, predecessor map and
      distances: trace groups follow checked nodes at non-decreasing
      distance, every predecessor is joined to its key by a link of the
      right weight and was checked (so it heads a trace group), every
      reached node but the source has one, and walking the map towards the
      source never cycles. The distance of every node heading a group is the
      least weight of a walk to it. */
  ghost predicate Outcome<T>(g: Graph<T>, source: nat, trace: seq<seq<nat>>, rev: map<nat, nat>,
                             dist: map<nat, nat>, rank: map<nat, nat>) {
    DistOk(g, source, dist) &&
    (forall i :: 0 <= i < |trace| ==> Group(g, trace[i]) && trace[i][0] in dist) &&
    (forall i, j :: 0 <= i < j < |trace| ==> dist[trace[i][0]] <= dist[trace[j][0]]) &&
    (forall i :: 0 <= i < |trace| ==> Least(g, source, trace[i][0], dist[trace[i][0]])) &&
    (forall k {:trigger rev[k]} :: k in rev ==>
      RevLink(g, source, dist, rev[k], k) && rev[k] in rank &&
      exists i :: 0 <= i < |trace| && trace[i][0] == rev[k]) &&
    (forall k :: k in dist && k != source ==> k in rev) &&
    PathRanked(rev, rank, source)
  }

  lemma OutcomeOf<T>(g: Graph<T>, source: nat, look: nat, rev: map<nat, nat>, dist: map<nat, nat>,
                     unchecked: set<nat>, trace: seq<seq<nat>>, checked: set<nat>, rank: map<nat, nat>)
    requires DijkstraInv(g, source, look, rev, dist, unchecked, trace, checked, rank)
    ensures Outcome(g, source, trace, rev, dist, rank)
  {
    DijkstraRanked(g, source, rev, dist, trace, checked, rank);
  }

  /** When every reached node is checked, nothing outside them is reachable,
      in particular not `look`. */
  lemma Exhausted<T>(g: Graph<T>, source: nat, look: nat, rev: map<nat, nat>, dist: map<nat, nat>,
                     unchecked: set<nat>, trace: seq<seq<nat>>, checked: set<nat>, rank: map<nat, nat>)
    requires DijkstraInv(g, source, look, rev, dist, unchecked, trace, checked, rank)
    requires forall k :: k in dist ==> k in checked
    ensures !Reachable(g, source, look)
  {
    forall p | IsWalk(g, p) && p[0] == source ensures p[|p| - 1] != look {
      ClosedHoldsReachable(g, source, checked, p);
    }
  }

  /** The rest of one iteration once `u` (not `look`) is dequeued: a sealed
      node is just checked, with the group `[u]`; otherwise its links are
      expanded. */
  method CheckNode<T>(g: Graph<T>, source: nat, ghost look: nat, u: nat, weight: nat,
                      rev0: map<nat, nat>, dist0: map<nat, nat>, unchecked0: set<nat>, ghost uncheckedOld: set<nat>,
                      trace0: seq<seq<nat>>, checked0: set<nat>, ghost rank0: map<nat, nat>)
    returns (rev: map<nat, nat>, dist: map<nat, nat>, unchecked: set<nat>,
             trace: seq<seq<nat>>, checked: set<nat>, ghost rank: map<nat, nat>)
    requires WellFormed(g) && u < |g| && u != look
    requires DijkstraInv(g, source, look, rev0, dist0, uncheckedOld, trace0, checked0, rank0)
    requires unchecked0 == uncheckedOld - {u}
    requires u in dist0 && u !in checked0 && weight == dist0[u]
    requires forall k :: k in dist0 && k !in checked0 ==> dist0[u] <= dist0[k]
    ensures DijkstraInv(g, source, look, rev, dist, unchecked, trace, checked, rank)
    ensures checked == checked0 + {u}
    ensures trace == trace0 + [[u] + Targets(g, u)]
  {
    SelectedLeast(g, source, look, rev0, dist0, uncheckedOld, trace0, checked0, rank0, u);
    if g[u].edges.None? {
      CheckStep(g, source, look, u, weight, rev0, dist0, uncheckedOld, trace0, checked0, rank0,
                rev0, dist0, unchecked0, [u]);
      rev, dist, unchecked := rev0, dist0, unchecked0;
      trace := trace0 + [[u]];
    } else {
      var group;
      rev, dist, unchecked, group := Expand(g, source, u, weight, rev0, dist0, unchecked0, checked0);
      CheckStep(g, source, look, u, weight, rev0, dist0, uncheckedOld, trace0, checked0, rank0,
                rev, dist, unchecked, group);
      trace := trace0 + [group];
    }
    rank := rank0[u := |trace0|];
    checked := checked0 + {u};
  }

  /** `dijkstra_extra`: the predecessor map (absent exactly when the source
      has no edge list) and the trace of every iteration that did not
      dequeue `look`. The ghost results are the final distances, whether
      `look` was dequeued, and the order in which nodes were checked. */
  method DijkstraExtra<T>(g: Graph<T>, source: nat, look: nat)
    returns (trace: seq<seq<nat>>, result: Option<map<nat, nat>>,
             ghost distances: map<nat, nat>, ghost found: bool, ghost rank: map<nat, nat>)
    requires WellFormed(g) && source < |g|
    ensures result.None? <==> g[source].edges.None?
    ensures result.None? ==> trace == [] && !found
    ensures forall i :: 0 <= i < |trace| ==> |trace[i]| >= 1 && trace[i][0] != look
    ensures forall i, j :: 0 <= i < j < |trace| ==> trace[i][0] != trace[j][0]
    ensures result.Some? ==> Outcome(g, source, trace, result.value, distances, rank)
    ensures found ==>
      result.Some? && look in distances &&
      (look != source ==> look in result.value && result.value[look] in rank)
    ensures result.Some? && !found ==> !Reachable(g, source, look)
    ensures result.Some? && !found ==> look !in distances && look !in result.value
    ensures found ==> Least(g, source, look, distances[look])
    ensures found && look != source ==>
      exists r, ws :: PathOf(result.value, look, source, r) && r[|r| - 1] == source &&
        BackWalk(g, r, ws) && SumOf(ws) == distances[look]
  {
    trace, distances, found, rank := [], map[], false, map[];
    if g[source].edges.None? {
      return trace, None, distances, found, rank;
    }
    var rev: map<nat, nat> := map[];
    var checked: set<nat> := {};
    var unchecked: set<nat> := {source};
    var dist: map<nat, nat> := map[source := 0];
    while unchecked != {}
      invariant DijkstraInv(g, source, look, rev, dist, unchecked, trace, checked, rank)
      invariant checked <= Below(|g|)
      decreases Below(|g|) - checked
    {
      var any, u, weight := SelectMin(dist, checked, |g|);
      if !any {
        break;
      }
      ghost var uncheckedOld := unchecked;
      unchecked := unchecked - {u};
      if u == look {
        SelectedLeast(g, source, look, rev, dist, uncheckedOld, trace, checked, rank, u);
        OutcomeOf(g, source, look, rev, dist, uncheckedOld, trace, checked, rank);
        if look != source {
          ghost var r := LeastRoute(g, source, look, trace, rev, dist, rank);
        }
        return trace, Some(rev), dist, true, rank;
      }
      rev, dist, unchecked, trace, checked, rank :=
        CheckNode(g, source, look, u, weight, rev, dist, unchecked, uncheckedOld, trace, checked, rank);
    }
    OutcomeOf(g, source, look, rev, dist, unchecked, trace, checked, rank);
    Exhausted(g, source, look, rev, dist, unchecked, trace, checked, rank);
    return trace, Some(rev), dist, false, rank;
  }

  /** Walking the predecessor map back from a reached node `r[0]` retraces
      links whose weights add up to its distance, and ends at the source. */
  lemma {:induction false} RevRoute<T>(g: Graph<T>, source: nat, rev: map<nat, nat>, dist: map<nat, nat>, r: seq<nat>)
    requires DistOk(g, source, dist)
    requires forall k {:trigger rev[k]} :: k in rev ==> RevLink(g, source, dist, rev[k], k)
    requires forall k :: k in dist && k != source ==> k in rev
    requires |r| >= 2 && r[0] != source && PathOf(rev, r[0], source, r)
    ensures r[|r| - 1] == source && r[0] in dist
    ensures exists ws :: BackWalk(g, r, ws) && SumOf(ws) == dist[r[0]]
    decreases |r|
  {
    var k, y := r[0], r[1];
    assert RevLink(g, source, dist, rev[k], k);
    var l :| l in Edges(g, y) && l.to == k && dist[k] == dist[y] + l.weight;
    assert k < |g| && Link(k, l.weight) == l;
    if |r| == 2 {
      assert y == source;
      BackWalkCons(g, l.weight, r, []);
    } else {
      var r' := r[1..];
      PathOfTail(rev, source, r);
      RevRoute(g, source, rev, dist, r');
      var ws' :| BackWalk(g, r', ws') && SumOf(ws') == dist[y];
      BackWalkCons(g, l.weight, r, ws');
    }
  }

  /** A back-walk grows at its front by one link into its first node. */
  lemma BackWalkCons<T>(g: Graph<T>, w: nat, r: seq<nat>, ws: seq<nat>)
    requires |r| >= 2 && BackWalk(g, r[1..], ws) && r[0] < |g| && Link(r[0], w) in Edges(g, r[1])
    ensures BackWalk(g, r, [w] + ws) && SumOf([w] + ws) == w + SumOf(ws)
  {
    var ws2 := [w] + ws;
    assert ws2[1..] == ws;
    forall i | 0 <= i < |ws2| ensures Link(r[i], ws2[i]) in Edges(g, r[i + 1]) {
      if i > 0 {
        assert r[i] == r[1..][i - 1] && r[i + 1] == r[1..][i] && ws2[i] == ws[i - 1];
      }
    }
  }

  /** Every predecessor entry names a node with a link to its key. */
  lemma OutcomeLinks<T>(g: Graph<T>, source: nat, rev: map<nat, nat>, dist: map<nat, nat>)
    requires forall k {:trigger rev[k]} :: k in rev ==> RevLink(g, source, dist, rev[k], k)
    ensures forall k :: k in rev ==> rev[k] < |g| && k in Targets(g, rev[k])
  {
    forall k | k in rev ensures rev[k] < |g| && k in Targets(g, rev[k]) {
      var l :| l in Edges(g, rev[k]) && l.to == k && (k != source ==> dist[k] == dist[rev[k]] + l.weight);
      LinkTarget(g, rev[k], l);
    }
  }

  /** `dijkstra`: the predecessor map alone. Each entry names a node with a
      link to its key. */
  method Dijkstra<T>(g: Graph<T>, source: nat, look: nat) returns (result: Option<map<nat, nat>>)
    requires WellFormed(g) && source < |g|
    ensures result.None? <==> g[source].edges.None?
    ensures result.Some? ==> forall k :: k in result.value ==> result.value[k] < |g| && k in Targets(g, result.value[k])
    ensures result.Some? && look in result.value && look != source ==>
      exists r, ws :: PathOf(result.value, look, source, r) && r[|r| - 1] == source &&
        BackWalk(g, r, ws) && Least(g, source, look, SumOf(ws))
    ensures result.Some? && look !in result.value ==> look == source || !Reachable(g, source, look)
  {
    ghost var dist, found, rank;
    var trace;
    trace, result, dist, found, rank := DijkstraExtra(g, source, look);
    if result.Some? {
      OutcomeLinks(g, source, result.value, dist);
      if look in result.value && look != source {
        ghost var r := LeastRoute(g, source, look, trace, result.value, dist, rank);
      }
    }
  }

  /** Once `look` (not the source) has its least distance, the route `path`
      takes from it back to the source weighs exactly that. */
  lemma LeastRoute<T>(g: Graph<T>, source: nat, look: nat, trace: seq<seq<nat>>, rev: map<nat, nat>,
                      dist: map<nat, nat>, rank: map<nat, nat>) returns (r: seq<nat>)
    requires Outcome(g, source, trace, rev, dist, rank) && look in rev && look != source
    requires Least(g, source, look, dist[look])
    ensures PathOf(rev, look, source, r) && r[|r| - 1] == source
    ensures exists ws :: BackWalk(g, r, ws) && SumOf(ws) == dist[look] && Least(g, source, look, SumOf(ws))
  {
    RankedEnds(rev, rank, look, source);
    r :| PathOf(rev, look, source, r);
    RevRoute(g, source, rev, dist, r);
  }

  /** What `path(area, from, to)` returns: `from`, then the entry of each
      element in turn, ending at the first `to` after `from` or at an element
      without an entry. */
  ghost predicate PathOf(area: map<nat, nat>, from: nat, to: nat, p: seq<nat>) {
    |p| >= 2 && p[0] == from &&
    (forall i :: 0 <= i < |p| - 1 ==> p[i] in area && p[i + 1] == area[p[i]]) &&
    (forall i :: 1 <= i < |p| - 1 ==> p[i] != to) &&
    (p[|p| - 1] == to || p[|p| - 1] !in area)
  }

  /** The walk from `from` stops after finitely many steps. */
  ghost predicate PathEnds(area: map<nat, nat>, from: nat, to: nat) {
    exists p :: PathOf(area, from, to, p)
  }

  /** There is only one such walk: `path`'s result is determined. */
  lemma {:induction false} PathOfUnique(area: map<nat, nat>, from: nat, to: nat, p: seq<nat>, q: seq<nat>)
    requires PathOf(area, from, to, p) && PathOf(area, from, to, q)
    ensures p == q
    decreases |p|
  {
    assert p[1] == q[1];
    if |p| > 2 && |q| > 2 {
      var p', q' := p[1..], q[1..];
      assert PathOf(area, p[1], to, p') by {
        forall i | 1 <= i < |p'| - 1 ensures p'[i] != to {
          assert p'[i] == p[i + 1];
        }
      }
      assert PathOf(area, p[1], to, q') by {
        forall i | 1 <= i < |q'| - 1 ensures q'[i] != to {
          assert q'[i] == q[i + 1];
        }
      }
      PathOfUnique(area, p[1], to, p', q');
      assert p == [p[0]] + p' && q == [q[0]] + q';
    }
  }

  /** Dropping the first element of a walk that goes on past its second. */
  lemma PathOfTail(area: map<nat, nat>, to: nat, p: seq<nat>)
    requires |p| > 2 && PathOf(area, p[0], to, p)
    ensures p[1] != to && PathOf(area, p[1], to, p[1..])
  {
    var q := p[1..];
    forall i | 1 <= i < |q| - 1 ensures q[i] != to {
      assert q[i] == p[i + 1];
    }
  }

  /** Extending a walk by one step at its front. */
  lemma PathOfCons(area: map<nat, nat>, x: nat, to: nat, q: seq<nat>)
    requires x in area && PathOf(area, area[x], to, q) && area[x] != to
    ensures PathOf(area, x, to, [x] + q)
  {
    var p := [x] + q;
    forall i | 1 <= i < |p| - 1 ensures p[i] != to {
      if i > 1 {
        assert p[i] == q[i - 1];
      }
    }
  }

  /** With a ranking (`PathRanked`) the walk from any key whose entry is
      ranked ends. */
  lemma {:induction false} RankedEnds(area: map<nat, nat>, rank: map<nat, nat>, from: nat, to: nat)
    requires PathRanked(area, rank, to)
    requires from in area && area[from] in rank
    ensures PathEnds(area, from, to)
    decreases rank[area[from]]
  {
    var y := area[from];
    if y == to || y !in area {
      assert PathOf(area, from, to, [from, y]);
    } else {
      RankedEnds(area, rank, y, to);
      var q :| PathOf(area, y, to, q);
      PathOfCons(area, from, to, q);
    }
  }

  /** `path`. Termination needs the walk to end; on a predecessor cycle that
      never meets `to` the source would loop forever. */
  method Path(area: map<nat, nat>, from: nat, to: nat) returns (result: Option<seq<nat>>)
    requires from in area ==> PathEnds(area, from, to)
    ensures result.None? <==> from !in area
    ensures result.Some? ==> PathOf(area, from, to, result.value)
  {
    var i: Option<nat> := if from in area then Some(area[from]) else None;
    if i.None? {
      return None;
    }
    ghost var p :| PathOf(area, from, to, p);
    var path := [from];
    while i.Some?
      invariant 1 <= |path| <= |p| && path == p[..|path|]
      invariant i.Some? ==> |path| < |p| && i.value == p[|path|]
      invariant i.None? ==> path == p
      decreases |p| - |path|
    {
      var point := i.value;
      path := path + [point];
      if point == to {
        assert |path| == |p|;
        break;
      }
      i := if point in area then Some(area[point]) else None;
    }
    return Some(path);
  }

}
