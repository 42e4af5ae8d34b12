/** `a_star` (graph/src/algorithm.rs): best-first search over the open set
    by f-score, relaxing the links of each node it closes. */
module AStarSearch {
  import opened Arena
  import opened Search
  import opened AStarState

  /** The selection at the top of `a_star`'s loop: the largest f-score (the
      last one on ties, as `max_by` keeps the last), then a scan of the open
      set in increasing order that takes every member whose f-score is at
      most the best so far. The result is an open member of least f-score,
      the largest such index on ties. */
  method SelectOpen(fs: seq<nat>, open: set<nat>) returns (current: nat)
    requires |fs| >= 1 && open != {}
    requires forall k :: k in open ==> k < |fs|
    ensures current in open
    ensures forall k :: k in open ==> fs[current] <= fs[k]
    ensures forall k :: k in open && fs[k] == fs[current] ==> k <= current
  {
    var min := fs[0];
    current := 0;
    for k := 1 to |fs|
      invariant current < k && min == fs[current]
      invariant forall j :: 0 <= j < k ==> fs[j] <= min
    {
      if fs[k] >= min {
        min, current := fs[k], k;
      }
    }
    ghost var any := false;
    for k := 0 to |fs|
      invariant any <==> exists j :: 0 <= j < k && j in open
      invariant any ==> current in open && current < k && min == fs[current]
      invariant !any ==> forall j :: 0 <= j < |fs| ==> fs[j] <= min
      invariant forall j :: 0 <= j < k && j in open ==> min <= fs[j]
      invariant forall j :: 0 <= j < k && j in open && fs[j] == min ==> j <= current
    {
      if k in open && fs[k] <= min {
        min := fs[k];
        current := k;
        any := true;
      }
    }
    assert any by {
      var w :| w in open;
    }
  }

  /** One pass of the neighbour loop of `a_star`, for link `i` of
      `current`: if the tentative g-score through the link beats the
      target's, the target gets `current` as its predecessor, its new g-
      and f-score and a place in the open set; otherwise nothing changes.
      `Touched` relates the state to the one before the whole loop. */
  method RelaxOne<T>(g: Graph<T>, ghost start: nat, ghost goal: nat, h: nat -> nat, current: nat, ghost gc: nat,
                     ghost base: (set<nat>, map<nat, nat>, seq<nat>, seq<nat>),
                     i: nat, open0: set<nat>, cf0: map<nat, nat>, gs0: seq<nat>, fs0: seq<nat>,
                     ghost stamp0: seq<nat>, ghost clock0: nat)
    returns (open: set<nat>, cf: map<nat, nat>, gs: seq<nat>, fs: seq<nat>,
             ghost stamp: seq<nat>, ghost clock: nat, ghost improved: bool)
    requires current < |g| && |gs0| == |g| && i < |Edges(g, current)|
    requires Relaxing(g, start, goal, h, current, gc, open0, cf0, gs0, fs0, stamp0, clock0, i)
    requires |base.2| == |g| && |base.3| == |g| && |fs0| == |g|
    requires Touched(g, current, base.0, base.1, base.2, base.3, open0, cf0, gs0, fs0)
    ensures Relaxing(g, start, goal, h, current, gc, open, cf, gs, fs, stamp, clock, i + 1)
    ensures |gs| == |g| && |fs| == |g|
    ensures Touched(g, current, base.0, base.1, base.2, base.3, open, cf, gs, fs)
    ensures var nb := Edges(g, current)[i].to;
      nb < |g| && (improved <==> gs0[current] + Edges(g, current)[i].weight < gs0[nb]) &&
      (improved ==> gs[nb] < gs0[nb]) &&
      (!improved ==> open == open0 && cf == cf0 && gs == gs0 && fs == fs0)
  {
    var edges := Edges(g, current);
    var tentative := gs0[current] + edges[i].weight;
    var neighbor := edges[i].to;
    if tentative < gs0[neighbor] {
      ImproveStep(g, start, goal, h, current, gc, open0, cf0, gs0, fs0, stamp0, clock0, i, neighbor, tentative);
      TouchStep(g, current, base.0, base.1, base.2, base.3, open0, cf0, gs0, fs0, neighbor, tentative, tentative + h(neighbor));
      cf := cf0[neighbor := current];
      gs := gs0[neighbor := tentative];
      fs := fs0[neighbor := tentative + h(neighbor)];
      open := open0 + {neighbor};
      stamp, clock := stamp0[neighbor := clock0], clock0 + 1;
      improved := true;
    } else {
      KeepStep(g, start, goal, h, current, gc, open0, cf0, gs0, fs0, stamp0, clock0, i, neighbor, tentative);
      open, cf, gs, fs, stamp, clock := open0, cf0, gs0, fs0, stamp0, clock0;
      improved := false;
    }
  }

  /** The neighbour loop of `a_star`: every link of `current` is relaxed in
      list order. Only improved targets change (`Touched`); when one did,
      the returned state is the one before with those targets updated. */
  method RelaxLinks<T>(g: Graph<T>, ghost start: nat, ghost goal: nat, h: nat -> nat, current: nat,
                       open0: set<nat>, cf0: map<nat, nat>, gs0: seq<nat>, fs0: seq<nat>,
                       ghost stamp0: seq<nat>, ghost clock0: nat)
    returns (open: set<nat>, cf: map<nat, nat>, gs: seq<nat>, fs: seq<nat>,
             ghost stamp: seq<nat>, ghost clock: nat)
    requires current < |g| && |gs0| == |g| && |fs0| == |g|
    requires Relaxing(g, start, goal, h, current, gs0[current], open0, cf0, gs0, fs0, stamp0, clock0, 0)
    ensures |gs| == |g| && |fs| == |g|
    ensures Relaxing(g, start, goal, h, current, gs0[current], open, cf, gs, fs, stamp, clock, |Edges(g, current)|)
    ensures Touched(g, current, open0, cf0, gs0, fs0, open, cf, gs, fs)
  {
    ghost var gc := gs0[current];
    ghost var base := (open0, cf0, gs0, fs0);
    open, cf, gs, fs, stamp, clock := open0, cf0, gs0, fs0, stamp0, clock0;
    for i := 0 to |Edges(g, current)|
      invariant |gs| == |g| && |fs| == |g|
      invariant Relaxing(g, start, goal, h, current, gc, open, cf, gs, fs, stamp, clock, i)
      invariant Touched(g, current, open0, cf0, gs0, fs0, open, cf, gs, fs)
    {
      ghost var improved;
      open, cf, gs, fs, stamp, clock, improved := RelaxOne(g, start, goal, h, current, gc, base, i, open, cf, gs, fs, stamp, clock);
    }
  }

  /** A sequence of `n` copies of `v`: the score maps start with every node
      at the sentinel. */
  method Filled(n: nat, v: nat) returns (s: seq<nat>)
    ensures |s| == n
    ensures forall k :: 0 <= k < n ==> s[k] == v
  {
    s := [];
    for i := 0 to n
      invariant |s| == i && forall k :: 0 <= k < i ==> s[k] == v
    {
      s := s + [v];
    }
  }

  /** Following `came_from` from any key ends: each entry comes strictly
      earlier in the order (g-score, time of last improvement). */
  lemma {:induction false} LexEnds<T>(g: Graph<T>, start: nat, cf: map<nat, nat>, gs: seq<nat>,
                                       stamp: seq<nat>, from: nat)
    requires start !in cf && forall k {:trigger cf[k]} :: k in cf ==> CameOk(g, start, cf, gs, stamp, k)
    requires from in cf && from < |gs| && from < |stamp|
    ensures PathEnds(cf, from, start)
    decreases gs[from], stamp[from]
  {
    assert CameOk(g, start, cf, gs, stamp, from);
    var y := cf[from];
    if y == start || y !in cf {
      assert PathOf(cf, from, start, [from, y]);
    } else {
      LexEnds(g, start, cf, gs, stamp, y);
      var q :| PathOf(cf, y, start, q);
      PathOfCons(cf, from, start, q);
    }
  }

  /** What `came_from` holds when `a_star` reaches the goal. */
  lemma Found<T>(g: Graph<T>, start: nat, goal: nat, h: nat -> nat, open: set<nat>,
                 cf: map<nat, nat>, gs: seq<nat>, fs: seq<nat>, stamp: seq<nat>, clock: nat)
    requires AStarCore(g, start, goal, h, open, cf, gs, fs, stamp, clock) && goal in open
    ensures goal < |g| && (goal == start || goal in cf) && start !in cf
    ensures forall k :: k in cf ==>
      k < |g| && cf[k] < |g| && k in Targets(g, cf[k]) && (cf[k] == start || cf[k] in cf)
    ensures forall k :: k in cf ==> PathEnds(cf, k, start)
  {
    forall k | k in cf
      ensures k < |g| && cf[k] < |g| && k in Targets(g, cf[k]) && (cf[k] == start || cf[k] in cf)
      ensures PathEnds(cf, k, start)
    {
      assert CameOk(g, start, cf, gs, stamp, k);
      var l :| l in Edges(g, cf[k]) && l.to == k && gs[k] >= gs[cf[k]] + l.weight;
      LinkTarget(g, cf[k], l);
      LexEnds(g, start, cf, gs, stamp, k);
    }
  }

  /** When the open set runs empty, no walk from `start` reaches `goal` with
      total weight below the sentinel. */
  lemma Unreached<T>(g: Graph<T>, start: nat, goal: nat, h: nat -> nat,
                     cf: map<nat, nat>, gs: seq<nat>, fs: seq<nat>, stamp: seq<nat>, clock: nat)
    requires AStarCore(g, start, goal, h, {}, cf, gs, fs, stamp, clock) && Closure(g, gs, {}, {})
    ensures goal != start
    ensures forall p, w :: LinkWalk(g, p, w) && p[0] == start && p[|p| - 1] == goal ==> SumOf(w) >= Inf
  {
    forall p, w | LinkWalk(g, p, w) && p[0] == start && p[|p| - 1] == goal
      ensures SumOf(w) >= Inf
    {
      if SumOf(w) < Inf {
        WalkBound(g, gs, p, w);
      }
    }
  }

  /** `h` never overestimates: from any node, every walk to `goal` weighs at
      least `h` of that node. */
  ghost predicate Admissible<T>(g: Graph<T>, h: nat -> nat, goal: nat) {
    forall p, w :: LinkWalk(g, p, w) && p[|p| - 1] == goal ==> h(p[0]) <= SumOf(w)
  }

  /** While A* runs, a walk from the start that weighs less than the
      sentinel either passes an open node scored no higher than the walk's
      weight up to it, or ends at a node scored no higher than the walk's
      whole weight. */
  lemma {:induction false} OpenOnWalk<T>(g: Graph<T>, start: nat, open: set<nat>, gs: seq<nat>, p: seq<nat>, w: seq<nat>)
    requires |gs| == |g| && start < |g| && gs[start] == 0 && Closure(g, gs, open, {})
    requires LinkWalk(g, p, w) && p[0] == start && SumOf(w) < Inf
    ensures gs[p[|p| - 1]] <= SumOf(w) ||
      exists i :: 0 <= i < |w| && p[i] in open && gs[p[i]] <= SumOf(w[..i])
    decreases |p|
  {
    if |p| > 1 {
      var n := |p| - 1;
      var q, v := p[..n], w[..n - 1];
      assert LinkWalk(g, q, v);
      assert w == v + [w[n - 1]];
      SumOfAppend(v, [w[n - 1]]);
      assert SumOf([w[n - 1]]) == w[n - 1] + SumOf([w[n - 1]][1..]);
      OpenOnWalk(g, start, open, gs, q, v);
      if gs[p[n - 1]] <= SumOf(v) {
        if p[n - 1] in open {
          assert w[..n - 1] == v;
        } else {
          assert RelaxedAt(g, gs, p[n - 1]);
          assert Link(p[n], w[n - 1]) in Edges(g, p[n - 1]);
        }
      } else {
        var i :| 0 <= i < |v| && q[i] in open && gs[q[i]] <= SumOf(v[..i]);
        assert v[..i] == w[..i];
      }
    }
  }

  /** With an admissible heuristic, the g-score of the goal when it is
      taken from the open set is the least weight of a walk to it. */
  lemma GoalLeast<T>(g: Graph<T>, start: nat, goal: nat, h: nat -> nat, open: set<nat>, gs: seq<nat>, fs: seq<nat>)
    requires |gs| == |g| && |fs| == |g| && start < |g| && gs[start] == 0 && Closure(g, gs, open, {})
    requires forall k :: k in open ==> k < |g| && fs[k] == gs[k] + h(k)
    requires goal in open && gs[goal] <= Inf && forall k :: k in open ==> fs[goal] <= fs[k]
    requires Admissible(g, h, goal)
    ensures Least(g, start, goal, gs[goal])
  {
    forall p, w | LinkWalk(g, p, w) && p[0] == start && p[|p| - 1] == goal
      ensures gs[goal] <= SumOf(w)
    {
      if SumOf(w) < Inf {
        OpenOnWalk(g, start, open, gs, p, w);
        if gs[goal] > SumOf(w) {
          var i :| 0 <= i < |w| && p[i] in open && gs[p[i]] <= SumOf(w[..i]);
          LinkWalkSuffix(g, p, w, i);
        }
      }
    }
  }

  /** Walking `came_from` back from a key retraces links whose weights add
      up to no more than the key's g-score, and ends at the start. */
  lemma {:induction false} CameRoute<T>(g: Graph<T>, start: nat, cf: map<nat, nat>, gs: seq<nat>,
                                        stamp: seq<nat>, r: seq<nat>)
    requires start < |gs| && gs[start] == 0
    requires forall k {:trigger cf[k]} :: k in cf ==> CameOk(g, start, cf, gs, stamp, k)
    requires |r| >= 2 && PathOf(cf, r[0], start, r)
    ensures r[|r| - 1] == start && r[0] < |gs|
    ensures exists ws :: BackWalk(g, r, ws) && SumOf(ws) <= gs[r[0]]
    decreases |r|
  {
    var k, y := r[0], r[1];
    assert CameOk(g, start, cf, gs, stamp, k);
    var l :| l in Edges(g, y) && l.to == k && gs[k] >= gs[y] + l.weight;
    assert k < |g| && Link(k, l.weight) == l;
    if |r| == 2 {
      assert y == start;
      BackWalkCons(g, l.weight, r, []);
    } else {
      PathOfTail(cf, start, r);
      CameRoute(g, start, cf, gs, stamp, r[1..]);
      var ws' :| BackWalk(g, r[1..], ws') && SumOf(ws') <= gs[y];
      BackWalkCons(g, l.weight, r, ws');
    }
  }

  /** With an admissible heuristic, the route `path` takes back from the
      goal is a cheapest one. */
  lemma Cheapest<T>(g: Graph<T>, start: nat, goal: nat, h: nat -> nat, open: set<nat>,
                    cf: map<nat, nat>, gs: seq<nat>, fs: seq<nat>, stamp: seq<nat>, clock: nat) returns (r: seq<nat>)
    requires AStarCore(g, start, goal, h, open, cf, gs, fs, stamp, clock) && Closure(g, gs, open, {})
    requires goal in open && goal != start && forall k :: k in open ==> fs[goal] <= fs[k]
    requires Admissible(g, h, goal)
    ensures PathOf(cf, goal, start, r) && r[|r| - 1] == start
    ensures exists ws :: BackWalk(g, r, ws) && Least(g, start, goal, SumOf(ws))
  {
    GoalLeast(g, start, goal, h, open, gs, fs);
    LexEnds(g, start, cf, gs, stamp, goal);
    r :| PathOf(cf, goal, start, r);
    CameRoute(g, start, cf, gs, stamp, r);
    var ws :| BackWalk(g, r, ws) && SumOf(ws) <= gs[goal];
    assert Least(g, start, goal, SumOf(ws));
  }

  /** `a_star`. The start must be a node: the source indexes the f-scores
      with it. A node gets a `came_from` entry only over a real link, and the
      entries never form a cycle, so `path` over the result ends; with an
      admissible heuristic the route it gives is a cheapest one. */
  method AStar<T>(g: Graph<T>, start: nat, goal: nat, h: nat -> nat) returns (result: Option<map<nat, nat>>)
    requires WellFormed(g) && start < |g|
    ensures result.Some? ==> goal < |g| && (goal == start || goal in result.value) && start !in result.value
    ensures result.Some? ==> forall k :: k in result.value ==>
      k < |g| && result.value[k] < |g| && k in Targets(g, result.value[k]) &&
      (result.value[k] == start || result.value[k] in result.value)
    ensures result.Some? ==> forall k :: k in result.value ==> PathEnds(result.value, k, start)
    ensures result.Some? && goal != start && Admissible(g, h, goal) ==>
      exists r, ws :: PathOf(result.value, goal, start, r) && r[|r| - 1] == start &&
        BackWalk(g, r, ws) && Least(g, start, goal, SumOf(ws))
    ensures result.None? ==> goal != start
    ensures result.None? ==>
      forall p, w :: LinkWalk(g, p, w) && p[0] == start && p[|p| - 1] == goal ==> SumOf(w) >= Inf
  {
    var open := {start};
    var cf: map<nat, nat> := map[];
    var gs: seq<nat> := Filled(|g|, Inf);
    gs := gs[start := 0];
    var fs: seq<nat> := Filled(|g|, Inf);
    fs := fs[start := h(start)];
    ghost var stamp: seq<nat> := seq(|g|, k => 0);
    ghost var clock: nat := 1;
    while open != {}
      invariant WellFormed(g) && AStarCore(g, start, goal, h, open, cf, gs, fs, stamp, clock)
      invariant Closure(g, gs, open, {})
      decreases SumOf(gs), |open|
    {
      var current := SelectOpen(fs, open);
      if current == goal {
        Found(g, start, goal, h, open, cf, gs, fs, stamp, clock);
        if goal != start && Admissible(g, h, goal) {
          ghost var r := Cheapest(g, start, goal, h, open, cf, gs, fs, stamp, clock);
        }
        return Some(cf);
      }
      OpenStep(g, start, goal, h, current, open, cf, gs, fs, stamp, clock);
      open := open - {current};
      if g[current].edges.None? {
        CloseCurrent(g, current, gs[current], gs, open);
        continue;
      }
      ghost var open0, cf0, gs0, fs0 := open, cf, gs, fs;
      open, cf, gs, fs, stamp, clock := RelaxLinks(g, start, goal, h, current, open, cf, gs, fs, stamp, clock);
      CloseCurrent(g, current, gs0[current], gs, open);
      TouchedProgress(g, current, open0, cf0, gs0, fs0, open, cf, gs, fs);
    }
    Unreached(g, start, goal, h, cf, gs, fs, stamp, clock);
    return None;
  }
}
