/** The owned tree of `graph/src/node.rs`: a node holds its payload, an
    optional parent and an optional list of children. `Tree::go` counts the
    nodes and measures the depth; `walk` visits every node after its
    children. Children are owned (`Box`), so a node is a value and `push`
    returns the updated node. */
module Trees {
  import opened Text
  import Arena

  datatype Node<T> = Node(data: T, parent: Arena.Option<Node<T>>, children: Children<T>)

  /** `Option<Vec<Box<Node<T>>>>`: no list yet, or the ordered children. */
  datatype Children<T> = NoChildren | Children(nodes: seq<Node<T>>)

  /** A tree with the count and depth `Tree::new` stores beside its root. */
  datatype Tree<T> = Tree(root: Node<T>, deep: nat, count: nat)

  predicate IsLeaf<T>(n: Node<T>) {
    n.children.NoChildren?
  }

  /** The children of `n`, in order; none for a leaf. */
  function Kids<T>(n: Node<T>): seq<Node<T>> {
    if n.children.NoChildren? then [] else n.children.nodes
  }

  /** `Node::new`: a parentless leaf. */
  function NewNode<T>(data: T): (n: Node<T>)
    ensures n.data == data && n.parent.None?
    ensures IsLeaf(n) && Kids(n) == []
  {
    Node(data, Arena.None, NoChildren)
  }

  /** `Node::push`: the list is created when absent and the child goes at
      its end; the payload and the parent stay. */
  function Push<T>(n: Node<T>, child: Node<T>): (r: Node<T>)
    ensures !IsLeaf(r)
    ensures Kids(r) == Kids(n) + [child]
    ensures r.data == n.data && r.parent == n.parent
  {
    n.(children := Children(Kids(n) + [child]))
  }

  /** Every list of children that exists is non-empty: `go` takes the
      maximum of the children's depths with `max().unwrap()`. */
  ghost predicate WellShaped<T>(n: Node<T>)
    decreases n
  {
    match n.children
    case NoChildren => true
    case Children(cs) => |cs| > 0 && forall i :: 0 <= i < |cs| ==> WellShaped(cs[i])
  }

  function ChildCounts<T>(n: Node<T>): (r: seq<nat>)
    decreases n, 0
  {
    match n.children
    case NoChildren => []
    case Children(cs) => seq(|cs|, i requires 0 <= i < |cs| => Count(cs[i]))
  }

  /** The number of nodes: this one and those of every subtree. */
  function Count<T>(n: Node<T>): (r: nat)
    decreases n, 1
  {
    1 + Sum(ChildCounts(n))
  }

  function ChildDepths<T>(n: Node<T>): (r: seq<nat>)
    requires WellShaped(n)
    decreases n, 0
  {
    match n.children
    case NoChildren => []
    case Children(cs) => seq(|cs|, i requires 0 <= i < |cs| => Depth(cs[i]))
  }

  /** The number of levels: one, plus the deepest subtree's. */
  function Depth<T>(n: Node<T>): (r: nat)
    requires WellShaped(n)
    decreases n, 1
  {
    if IsLeaf(n) then 1 else 1 + Largest(ChildDepths(n))
  }

  /** `Tree::go`: one for the node itself, then for each child in order
      its count is added and its depth recorded; the depth grows by the
      largest recorded one. */
  method Go<T>(n: Node<T>) returns (count: nat, deep: nat)
    requires WellShaped(n)
    ensures count == Count(n) && deep == Depth(n)
    decreases n
  {
    count, deep := 1, 1;
    if n.children.Children? {
      var children := n.children.nodes;
      var deepLeafs: seq<nat> := [];
      for k := 0 to |children|
        invariant count == 1 + Sum(ChildCounts(n)[..k])
        invariant deepLeafs == ChildDepths(n)[..k]
      {
        var lc, ld := Go(children[k]);
        SumPrefix(ChildCounts(n), k);
        count := count + lc;
        deepLeafs := deepLeafs + [ld];
      }
      assert ChildCounts(n)[..|children|] == ChildCounts(n);
      assert ChildDepths(n)[..|children|] == ChildDepths(n);
      deep := deep + Largest(deepLeafs);
    }
  }

  /** `Tree::new`: the root with its count and depth. */
  method NewTree<T>(n: Node<T>) returns (t: Tree<T>)
    requires WellShaped(n)
    ensures t.root == n && t.count == Count(n) && t.deep == Depth(n)
  {
    var count, deep := Go(n);
    t := Tree(n, deep, count);
  }

  function Flatten<T>(ss: seq<seq<T>>): seq<T> {
    if ss == [] then [] else Flatten(ss[..|ss| - 1]) + ss[|ss| - 1]
  }

  function ChildWalks<T>(n: Node<T>): (r: seq<seq<Node<T>>>)
    decreases n, 0
  {
    match n.children
    case NoChildren => []
    case Children(cs) => seq(|cs|, i requires 0 <= i < |cs| => PostOrder(cs[i]))
  }

  /** The nodes `walk` hands to its callback, in call order: each child's
      walk in turn, then the node itself. */
  function PostOrder<T>(n: Node<T>): (r: seq<Node<T>>)
    ensures |r| >= 1 && r[|r| - 1] == n
    decreases n, 1
  {
    Flatten(ChildWalks(n)) + [n]
  }

  lemma {:induction false} FlattenLength<T>(ss: seq<seq<T>>, lens: seq<nat>)
    requires |ss| == |lens| && forall i :: 0 <= i < |ss| ==> |ss[i]| == lens[i]
    ensures |Flatten(ss)| == Sum(lens)
  {
    if ss != [] {
      var n := |ss| - 1;
      FlattenLength(ss[..n], lens[..n]);
    }
  }

  /** `walk` calls its callback once per node: as many times as `go`
      counts. */
  lemma {:induction false} WalkCount<T>(n: Node<T>)
    ensures |PostOrder(n)| == Count(n)
    decreases n
  {
    if n.children.Children? {
      var cs := n.children.nodes;
      forall i | 0 <= i < |cs| ensures |PostOrder(cs[i])| == Count(cs[i]) {
        WalkCount(cs[i]);
      }
      FlattenLength(ChildWalks(n), ChildCounts(n));
    }
  }

  lemma {:induction false} MaxAtMostSum(ds: seq<nat>, cs: seq<nat>)
    requires |ds| == |cs| > 0 && forall i :: 0 <= i < |ds| ==> ds[i] <= cs[i]
    ensures Largest(ds) <= Sum(cs)
  {
    var k :| 0 <= k < |ds| && ds[k] == Largest(ds);
    SumAtLeast(cs, k);
  }

  lemma {:induction false} SumAtLeast(cs: seq<nat>, k: nat)
    requires k < |cs|
    ensures cs[k] <= Sum(cs)
  {
    var n := |cs| - 1;
    if k < n {
      SumAtLeast(cs[..n], k);
    }
  }

  /** A tree is never deeper than it has nodes. */
  lemma {:induction false} DepthAtMostCount<T>(n: Node<T>)
    requires WellShaped(n)
    ensures 1 <= Depth(n) <= Count(n)
    decreases n
  {
    if n.children.Children? {
      var cs := n.children.nodes;
      forall i | 0 <= i < |cs| ensures Depth(cs[i]) <= Count(cs[i]) {
        DepthAtMostCount(cs[i]);
      }
      MaxAtMostSum(ChildDepths(n), ChildCounts(n));
    }
  }

  /** Pushing a child adds its nodes to the count. */
  lemma PushCount<T>(n: Node<T>, child: Node<T>)
    ensures Count(Push(n, child)) == Count(n) + Count(child)
  {
    var r := Push(n, child);
    var k := |Kids(n)|;
    assert ChildCounts(r)[..k] == ChildCounts(n);
    SumPrefix(ChildCounts(r), k);
    assert ChildCounts(r)[..k + 1] == ChildCounts(r);
  }

  /** Pushing a child keeps the tree well shaped; the depth becomes the
      larger of the old depth and one more than the child's. */
  lemma PushDepth<T>(n: Node<T>, child: Node<T>)
    requires WellShaped(n) && WellShaped(child)
    ensures WellShaped(Push(n, child))
    ensures Depth(Push(n, child)) == if IsLeaf(n) then 1 + Depth(child)
      else if Depth(n) > 1 + Depth(child) then Depth(n) else 1 + Depth(child)
  {
    PushShaped(n, child);
    if IsLeaf(n) {
      assert ChildDepths(Push(n, child)) == [Depth(child)];
    } else {
      MaxSnoc(ChildDepths(n), Depth(child));
    }
  }

  lemma PushShaped<T>(n: Node<T>, child: Node<T>)
    requires WellShaped(n) && WellShaped(child)
    ensures WellShaped(Push(n, child))
    ensures ChildDepths(Push(n, child)) == ChildDepths(n) + [Depth(child)]
  {
    var r := Push(n, child);
    assert Kids(r) == Kids(n) + [child];
    assert WellShaped(r);
  }

  lemma {:induction false} MaxSnoc(s: seq<nat>, x: nat)
    requires |s| > 0
    ensures Largest(s + [x]) == if Largest(s) > x then Largest(s) else x
  {
    if |s| > 1 {
      MaxSnoc(s[1..], x);
      assert (s + [x])[1..] == s[1..] + [x];
    }
  }

  /** The tree of the unit tests: root "0" with a leaf "1" and a "1" whose
      only child "2" has two leaves "3". */
  function Example(): Node<string> {
    Node("0", Arena.None, Children([
      NewNode("1"),
      Node("1", Arena.None, Children([
        Node("2", Arena.None, Children([NewNode("3"), NewNode("3")]))]))]))
  }

  /** A lone node: one node on one level. */
  lemma SingleNodeCountDeep<T>(data: T)
    ensures WellShaped(NewNode(data)) && Count(NewNode(data)) == 1 && Depth(NewNode(data)) == 1
  {
    assert ChildCounts(NewNode(data)) == [];
  }

  /** A node over two leaves: three nodes on two levels. */
  lemma FanCountDeep<T>(data: T, a: Node<T>, b: Node<T>)
    requires IsLeaf(a) && IsLeaf(b)
    ensures var n := Node(data, Arena.None, Children([a, b]));
      WellShaped(n) && Count(n) == 3 && Depth(n) == 2
  {
    var n := Node(data, Arena.None, Children([a, b]));
    assert ChildCounts(a) == [] && ChildCounts(b) == [];
    assert ChildCounts(n) == [1, 1];
    assert [1, 1][..1] == [1] && [1][..0] == [];
    assert ChildDepths(n) == [1, 1];
  }

  /** A node over one child adds one node and one level. */
  lemma ChainCountDeep<T>(data: T, c: Node<T>)
    requires WellShaped(c)
    ensures var n := Node(data, Arena.None, Children([c]));
      WellShaped(n) && Count(n) == 1 + Count(c) && Depth(n) == 1 + Depth(c)
  {
    var n := Node(data, Arena.None, Children([c]));
    assert ChildCounts(n) == [Count(c)];
    SumPrefix([Count(c)], 0);
    assert [Count(c)][..1] == [Count(c)];
    assert ChildDepths(n) == [Depth(c)];
  }

  /** The unit tests' expectation on the example tree: six nodes on four
      levels. */
  lemma ExampleCountDeep()
    ensures WellShaped(Example()) && Count(Example()) == 6 && Depth(Example()) == 4
  {
    var two := Node("2", Arena.None, Children([NewNode("3"), NewNode("3")]));
    FanCountDeep("2", NewNode("3"), NewNode("3"));
    var one := Node("1", Arena.None, Children([two]));
    ChainCountDeep("1", two);
    var leaf := NewNode("1");
    SingleNodeCountDeep("1");
    assert Example() == Node("0", Arena.None, Children([leaf, one]));
    assert ChildCounts(Example()) == [1, 4];
    assert [1, 4][..1] == [1] && [1][..0] == [];
    assert ChildDepths(Example()) == [1, 3];
  }
}
