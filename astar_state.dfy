/** The state of `a_star` (graph/src/algorithm.rs) and the invariants its
    loops keep: g- and f-scores as sequences indexed by node, the
    `came_from` map and the open set, plus two ghost records (the time of
    each node's last improvement and a clock) that order `came_from`. */
module AStarState {
  import opened Arena

  /** `usize::max_value() / 2` on a 64-bit target: the score of a node not
      reached yet. */
  const Inf: nat := 9223372036854775807

  /** Lowering scores lowers the sum, strictly when one score drops: the
      measure that makes A* stop. */
  lemma {:induction false} SumOfLower(s: seq<nat>, t: seq<nat>, w: nat)
    requires |t| == |s| && w < |s| && t[w] < s[w]
    requires forall k :: 0 <= k < |s| ==> t[k] <= s[k]
    ensures SumOf(t) < SumOf(s)
  {
    if w > 0 {
      SumOfLower(s[1..], t[1..], w - 1);
    } else {
      SumOfNoMore(s[1..], t[1..]);
    }
  }

  lemma {:induction false} SumOfNoMore(s: seq<nat>, t: seq<nat>)
    requires |t| == |s|
    requires forall k :: 0 <= k < |s| ==> t[k] <= s[k]
    ensures SumOf(t) <= SumOf(s)
  {
    if s != [] {
      SumOfNoMore(s[1..], t[1..]);
    }
  }

  /** Entry `k` of `came_from`: its value is the start or another key, a link
      joins it to `k` with `k`'s g-score covering the step, and it comes
      before `k` in the order (g-score, then time of the last update). */
  ghost predicate CameOk<T>(g: Graph<T>, start: nat, cf: map<nat, nat>, gs: seq<nat>, stamp: seq<nat>, k: nat)
    requires k in cf
  {
    k < |g| && cf[k] < |g| && |gs| == |g| && |stamp| == |g| && gs[k] < Inf &&
    (cf[k] == start || cf[k] in cf) &&
    (exists l {:trigger l in Edges(g, cf[k])} :: l in Edges(g, cf[k]) && l.to == k && gs[k] >= gs[cf[k]] + l.weight) &&
    (gs[cf[k]] < gs[k] || (gs[cf[k]] == gs[k] && stamp[cf[k]] < stamp[k]))
  }

  /** The state invariant of `a_star` apart from the relaxation of closed
      nodes. */
  ghost predicate AStarCore<T>(g: Graph<T>, start: nat, goal: nat, h: nat -> nat, open: set<nat>,
                               cf: map<nat, nat>, gs: seq<nat>, fs: seq<nat>, stamp: seq<nat>, clock: nat) {
    |gs| == |g| && |fs| == |g| && |stamp| == |g| &&
    start < |g| && gs[start] == 0 && start !in cf &&
    (forall k :: 0 <= k < |g| ==> gs[k] <= Inf && stamp[k] < clock) &&
    (forall k {:trigger k in open} :: k in open ==> k < |g| && gs[k] < Inf && fs[k] == gs[k] + h(k) && (k == start || k in cf)) &&
    (forall k {:trigger cf[k]} :: k in cf ==> CameOk(g, start, cf, gs, stamp, k)) &&
    (goal < |g| && gs[goal] < Inf ==> goal in open)
  }

  /** No link out of `k` leads to a node whose g-score exceeds `k`'s plus
      the link's weight. */
  ghost predicate RelaxedAt<T>(g: Graph<T>, gs: seq<nat>, k: nat) {
    k < |g| && |gs| == |g| &&
    forall l {:trigger l in Edges(g, k)} :: l in Edges(g, k) ==> l.to < |g| && gs[l.to] <= gs[k] + l.weight
  }

  /** Every reached node outside the open set (and outside `skip`) is
      relaxed. */
  ghost predicate Closure<T>(g: Graph<T>, gs: seq<nat>, open: set<nat>, skip: set<nat>) {
    forall k {:trigger RelaxedAt(g, gs, k)} ::
      0 <= k < |g| && k < |gs| && gs[k] < Inf && k !in open && k !in skip ==> RelaxedAt(g, gs, k)
  }

  /** `current`'s first `j` links are relaxed against its g-score `gc`. */
  ghost predicate PartlyRelaxed<T>(g: Graph<T>, current: nat, gc: nat, gs: seq<nat>, j: nat)
    requires WellFormed(g) && current < |g| && |gs| == |g| && j <= |Edges(g, current)|
  {
    forall i :: 0 <= i < j ==> gs[Edges(g, current)[i].to] <= gc + Edges(g, current)[i].weight
  }

  /** What the neighbour loop of `a_star` knows about the node it expands. */
  ghost predicate Expanded<T>(g: Graph<T>, start: nat, goal: nat, current: nat, gc: nat,
                              open: set<nat>, cf: map<nat, nat>, gs: seq<nat>) {
    current < |g| && |gs| == |g| && current != goal && current !in open && gs[current] == gc && gc < Inf &&
    (current == start || current in cf)
  }

  lemma CameOkStep<T>(g: Graph<T>, start: nat, goal: nat, h: nat -> nat, current: nat, gc: nat,
                      open: set<nat>, cf: map<nat, nat>, gs: seq<nat>, fs: seq<nat>,
                      stamp: seq<nat>, clock: nat, nb: nat, wt: nat, t: nat)
    requires WellFormed(g) && AStarCore(g, start, goal, h, open, cf, gs, fs, stamp, clock)
    requires current < |g| && gs[current] == gc && (current == start || current in cf)
    requires Link(nb, wt) in Edges(g, current) && t == gc + wt && nb < |g| && t < gs[nb]
    ensures forall k {:trigger cf[nb := current][k]} :: k in cf[nb := current] ==>
      CameOk(g, start, cf[nb := current], gs[nb := t], stamp[nb := clock], k)
  {
    var cf', gs', stamp' := cf[nb := current], gs[nb := t], stamp[nb := clock];
    assert nb != current;
    forall k | k in cf' ensures CameOk(g, start, cf', gs', stamp', k) {
      if k == nb {
        assert gs'[current] == gc;
        assert Link(nb, wt) in Edges(g, cf'[k]) && gs'[k] >= gs'[cf'[k]] + wt;
      } else {
        assert CameOk(g, start, cf, gs, stamp, k);
        var p := cf[k];
        var l :| l in Edges(g, p) && l.to == k && gs[k] >= gs[p] + l.weight;
        assert l in Edges(g, cf'[k]) && l.to == k && gs'[k] >= gs'[cf'[k]] + l.weight;
      }
    }
  }

  /** One improvement keeps the state invariant: the target gets `current`
      as its predecessor, its new scores and the next time stamp, and is
      opened. */
  lemma CoreStep<T>(g: Graph<T>, start: nat, goal: nat, h: nat -> nat, current: nat, gc: nat,
                    open: set<nat>, cf: map<nat, nat>, gs: seq<nat>, fs: seq<nat>,
                    stamp: seq<nat>, clock: nat, nb: nat, wt: nat, t: nat)
    requires WellFormed(g) && AStarCore(g, start, goal, h, open, cf, gs, fs, stamp, clock)
    requires current < |g| && gs[current] == gc && (current == start || current in cf)
    requires Link(nb, wt) in Edges(g, current) && t == gc + wt && nb < |g| && t < gs[nb]
    ensures AStarCore(g, start, goal, h, open + {nb}, cf[nb := current], gs[nb := t],
                      fs[nb := t + h(nb)], stamp[nb := clock], clock + 1)
  {
    CameOkStep(g, start, goal, h, current, gc, open, cf, gs, fs, stamp, clock, nb, wt, t);
    BoundsStep(g, gs, stamp, clock, nb, t, gs[nb := t], stamp[nb := clock]);
    OpenSetStep(g, start, goal, h, open, cf, gs, fs, stamp, clock, nb, current, t);
  }

  lemma BoundsStep<T>(g: Graph<T>, gs: seq<nat>, stamp: seq<nat>, clock: nat, nb: nat, t: nat,
                      gs': seq<nat>, stamp': seq<nat>)
    requires |gs| == |g| && |stamp| == |g| && nb < |g| && t < gs[nb]
    requires gs' == gs[nb := t] && stamp' == stamp[nb := clock]
    requires forall k :: 0 <= k < |g| ==> gs[k] <= Inf && stamp[k] < clock
    ensures forall k :: 0 <= k < |g| ==> gs'[k] <= Inf && stamp'[k] < clock + 1
  {
  }

  lemma OpenSetStep<T>(g: Graph<T>, start: nat, goal: nat, h: nat -> nat, open: set<nat>, cf: map<nat, nat>,
                       gs: seq<nat>, fs: seq<nat>, stamp: seq<nat>, clock: nat, nb: nat, current: nat, t: nat)
    requires AStarCore(g, start, goal, h, open, cf, gs, fs, stamp, clock)
    requires nb < |g| && t < gs[nb]
    ensures forall k {:trigger k in open + {nb}} :: k in open + {nb} ==>
      k < |g| && gs[nb := t][k] < Inf && fs[nb := t + h(nb)][k] == gs[nb := t][k] + h(k) &&
      (k == start || k in cf[nb := current])
    ensures goal < |g| && gs[nb := t][goal] < Inf ==> goal in open + {nb}
  {
  }

  /** The invariant of the neighbour loop of `a_star` after `i` links of
      `current`, whose g-score is `gc`. */
  ghost predicate Relaxing<T>(g: Graph<T>, start: nat, goal: nat, h: nat -> nat, current: nat, gc: nat,
                              open: set<nat>, cf: map<nat, nat>, gs: seq<nat>, fs: seq<nat>,
                              stamp: seq<nat>, clock: nat, i: nat) {
    WellFormed(g) && AStarCore(g, start, goal, h, open, cf, gs, fs, stamp, clock) &&
    Closure(g, gs, open, {current}) && Expanded(g, start, goal, current, gc, open, cf, gs) &&
    i <= |Edges(g, current)| && PartlyRelaxed(g, current, gc, gs, i)
  }

  /** A link that improves its target's g-score keeps the invariant. */
  lemma ImproveStep<T>(g: Graph<T>, start: nat, goal: nat, h: nat -> nat, current: nat, gc: nat,
                       open: set<nat>, cf: map<nat, nat>, gs: seq<nat>, fs: seq<nat>,
                       stamp: seq<nat>, clock: nat, j: nat, nb: nat, t: nat)
    requires Relaxing(g, start, goal, h, current, gc, open, cf, gs, fs, stamp, clock, j)
    requires j < |Edges(g, current)| && nb == Edges(g, current)[j].to && t == gc + Edges(g, current)[j].weight
    requires nb < |g| && t < gs[nb]
    ensures Relaxing(g, start, goal, h, current, gc, open + {nb}, cf[nb := current], gs[nb := t],
                     fs[nb := t + h(nb)], stamp[nb := clock], clock + 1, j + 1)
  {
    var wt := Edges(g, current)[j].weight;
    assert Edges(g, current)[j] == Link(nb, wt);
    assert nb != current;
    CoreStep(g, start, goal, h, current, gc, open, cf, gs, fs, stamp, clock, nb, wt, t);
    var gs' := gs[nb := t];
    forall k | 0 <= k < |g| && k < |gs'| && gs'[k] < Inf && k !in open + {nb} && k !in {current}
      ensures RelaxedAt(g, gs', k)
    {
      assert RelaxedAt(g, gs, k);
    }
    PartialStep(g, current, gc, gs, j, t);
  }

  /** A link that does not improve its target keeps the invariant. */
  lemma KeepStep<T>(g: Graph<T>, start: nat, goal: nat, h: nat -> nat, current: nat, gc: nat,
                    open: set<nat>, cf: map<nat, nat>, gs: seq<nat>, fs: seq<nat>,
                    stamp: seq<nat>, clock: nat, j: nat, nb: nat, t: nat)
    requires Relaxing(g, start, goal, h, current, gc, open, cf, gs, fs, stamp, clock, j)
    requires j < |Edges(g, current)| && nb == Edges(g, current)[j].to && t == gc + Edges(g, current)[j].weight
    requires nb < |g| && gs[nb] <= t
    ensures Relaxing(g, start, goal, h, current, gc, open, cf, gs, fs, stamp, clock, j + 1)
  {
    PartialStep(g, current, gc, gs, j, gs[nb]);
    assert gs[nb := gs[nb]] == gs;
  }

  /** The frame of one improvement: only the improved target changes. */
  lemma TouchStep<T>(g: Graph<T>, current: nat, open0: set<nat>, cf0: map<nat, nat>, gs0: seq<nat>,
                     fs0: seq<nat>, open: set<nat>, cf: map<nat, nat>, gs: seq<nat>, fs: seq<nat>,
                     nb: nat, t: nat, f: nat)
    requires |gs0| == |g| && |gs| == |g| && |fs0| == |g| && |fs| == |g| && nb < |g| && t < gs[nb]
    requires Touched(g, current, open0, cf0, gs0, fs0, open, cf, gs, fs)
    ensures Touched(g, current, open0, cf0, gs0, fs0, open + {nb}, cf[nb := current], gs[nb := t], fs[nb := f])
  {
  }

  lemma PartialStep<T>(g: Graph<T>, current: nat, gc: nat, gs: seq<nat>, j: nat, t: nat)
    requires WellFormed(g) && current < |g| && |gs| == |g| && j < |Edges(g, current)|
    requires PartlyRelaxed(g, current, gc, gs, j)
    requires t <= gc + Edges(g, current)[j].weight && Edges(g, current)[j].to < |gs|
    requires t <= gs[Edges(g, current)[j].to]
    ensures PartlyRelaxed(g, current, gc, gs[Edges(g, current)[j].to := t], j + 1)
  {
    var edges := Edges(g, current);
    var gs' := gs[edges[j].to := t];
    forall i | 0 <= i < j + 1 ensures gs'[edges[i].to] <= gc + edges[i].weight {
      assert edges[i].to < |g|;
      if i < j {
        assert gs'[edges[i].to] <= gs[edges[i].to];
      }
    }
  }

  /** After all of `current`'s links are relaxed, `current` itself is
      relaxed and the skip set is empty again. */
  lemma CloseCurrent<T>(g: Graph<T>, current: nat, gc: nat, gs: seq<nat>, open: set<nat>)
    requires WellFormed(g) && current < |g| && |gs| == |g| && gs[current] == gc
    requires Closure(g, gs, open, {current}) && PartlyRelaxed(g, current, gc, gs, |Edges(g, current)|)
    ensures Closure(g, gs, open, {})
  {
    assert RelaxedAt(g, gs, current) by {
      forall l | l in Edges(g, current) ensures l.to < |g| && gs[l.to] <= gs[current] + l.weight {
        var i :| 0 <= i < |Edges(g, current)| && Edges(g, current)[i] == l;
      }
    }
  }

  /** Only the improved targets change: each is open with `current` as its
      predecessor; every other node keeps its f-score, its membership of the
      open set and its `came_from` entry. */
  ghost predicate Touched<T>(g: Graph<T>, current: nat, open0: set<nat>, cf0: map<nat, nat>, gs0: seq<nat>,
                             fs0: seq<nat>, open: set<nat>, cf: map<nat, nat>, gs: seq<nat>, fs: seq<nat>)
    requires |gs0| == |g| && |gs| == |g| && |fs0| == |g| && |fs| == |g|
  {
    forall k :: 0 <= k < |g| ==>
      gs[k] <= gs0[k] &&
      (gs[k] < gs0[k] ==> k in open && k in cf && cf[k] == current) &&
      (gs[k] == gs0[k] ==>
         fs[k] == fs0[k] && (k in open <==> k in open0) && (k in cf <==> k in cf0) && (k in cf ==> cf[k] == cf0[k]))
  }

  /** Progress of one expansion: either no g-score changed, and then the
      open set is the one before, or their sum went down. */
  lemma TouchedProgress<T>(g: Graph<T>, current: nat, open0: set<nat>, cf0: map<nat, nat>, gs0: seq<nat>,
                           fs0: seq<nat>, open: set<nat>, cf: map<nat, nat>, gs: seq<nat>, fs: seq<nat>)
    requires |gs0| == |g| && |gs| == |g| && |fs0| == |g| && |fs| == |g|
    requires forall k {:trigger k in open0} :: k in open0 ==> k < |g|
    requires forall k {:trigger k in open} :: k in open ==> k < |g|
    requires Touched(g, current, open0, cf0, gs0, fs0, open, cf, gs, fs)
    ensures gs == gs0 ==> open == open0
    ensures gs != gs0 ==> SumOf(gs) < SumOf(gs0)
  {
    if gs == gs0 {
      assert forall k {:trigger k in open} :: k in open <==> k in open0;
    } else {
      var w :| 0 <= w < |g| && gs[w] != gs0[w];
      SumOfLower(gs0, gs, w);
    }
  }

  /** Taking `current` out of the open set: the invariant of the neighbour
      loop holds before its first link. */
  lemma OpenStep<T>(g: Graph<T>, start: nat, goal: nat, h: nat -> nat, current: nat,
                    open: set<nat>, cf: map<nat, nat>, gs: seq<nat>, fs: seq<nat>, stamp: seq<nat>, clock: nat)
    requires WellFormed(g) && AStarCore(g, start, goal, h, open, cf, gs, fs, stamp, clock)
    requires Closure(g, gs, open, {}) && current in open && current != goal
    ensures current < |g|
    ensures Relaxing(g, start, goal, h, current, gs[current], open - {current}, cf, gs, fs, stamp, clock, 0)
  {
    var open' := open - {current};
    forall k | 0 <= k < |g| && k < |gs| && gs[k] < Inf && k !in open' && k !in {current}
      ensures RelaxedAt(g, gs, k)
    {
      assert k !in open && k !in {};
    }
  }

  /** Once every reached node is relaxed, the g-score of a walk's end is at
      most the walk's start score plus its weight, as long as that stays
      below the sentinel. */
  lemma {:induction false} WalkBound<T>(g: Graph<T>, gs: seq<nat>, p: seq<nat>, w: seq<nat>)
    requires |gs| == |g| && Closure(g, gs, {}, {}) && LinkWalk(g, p, w)
    requires gs[p[0]] + SumOf(w) < Inf
    ensures gs[p[|p| - 1]] <= gs[p[0]] + SumOf(w)
    decreases |p|
  {
    if |p| > 1 {
      assert RelaxedAt(g, gs, p[0]);
      assert Link(p[1], w[0]) in Edges(g, p[0]);
      var p', w' := p[1..], w[1..];
      assert LinkWalk(g, p', w') by {
        forall i | 0 <= i < |w'| ensures Link(p'[i + 1], w'[i]) in Edges(g, p'[i]) {
          assert Link(p[i + 2], w[i + 1]) in Edges(g, p[i + 1]);
        }
      }
      WalkBound(g, gs, p', w');
    }
  }
}
