/** Composition trees, their breadth-first walk, and which of several configurations of one thing comes first. */
module Composition {
  import opened Common

  type Name = string
  type Path = seq<Name>

  /** A configuration value: plain, or a reference to a node configuration. */
  datatype Value = Plain(v: int) | NodeRef(name: Name)

  /** A configuration of the block that `target` leads to from the system that contains it. */
  datatype Config = Config(target: Path, values: seq<(Name, Value)>)

  /** A system. Keys of tables appear in the arbitrary but fixed order in which they are iterated. */
  datatype System = System(
    blocks: seq<Name>,
    configs: seq<Config>,
    nodecfgs: seq<(Name, int)>,
    subs: seq<(Name, System)>)

  /** A system together with its absolute path. */
  datatype Node = Node(path: Path, sys: System)

  ghost predicate DistinctNames<T>(xs: seq<(Name, T)>) {
    forall i, j :: 0 <= i < j < |xs| ==> xs[i].0 != xs[j].0
  }

  ghost predicate WellFormed(s: System)
    decreases s
  {
    && DistinctNames(s.subs)
    && forall i :: 0 <= i < |s.subs| ==> WellFormed(s.subs[i].1)
  }

  function Find<T>(xs: seq<(Name, T)>, n: Name): (r: Option<T>)
    ensures r.Some? ==> (n, r.value) in xs
    ensures r.None? ==> forall i :: 0 <= i < |xs| ==> xs[i].0 != n
  {
    if xs == [] then None else if xs[0].0 == n then Some(xs[0].1) else Find(xs[1..], n)
  }

  lemma {:induction false} FindDistinct<T>(xs: seq<(Name, T)>, i: nat)
    requires DistinctNames(xs) && i < |xs|
    ensures Find(xs, xs[i].0) == Some(xs[i].1)
  {
    if i > 0 {
      FindDistinct(xs[1..], i - 1);
    }
  }

  /** The system that a path of subsystem names leads to. */
  function SubAt(s: System, p: Path): Option<System>
    decreases |p|
  {
    if p == [] then Some(s)
    else match Find(s.subs, p[0]) case None => None case Some(t) => SubAt(t, p[1..])
  }

  function Children(n: Node): (c: seq<Node>)
    ensures |c| == |n.sys.subs|
    ensures forall i :: 0 <= i < |c| ==> c[i].path == n.path + [n.sys.subs[i].0] && c[i].sys == n.sys.subs[i].1
  {
    seq(|n.sys.subs|, i requires 0 <= i < |n.sys.subs| => Node(n.path + [n.sys.subs[i].0], n.sys.subs[i].1))
  }

  function Size(s: System): (k: nat)
    ensures k > 0
    decreases s, 0
  {
    1 + SizeSubs(s, |s.subs|)
  }

  function SizeSubs(s: System, k: nat): nat
    requires k <= |s.subs|
    decreases s, 0, k
  {
    if k == 0 then 0 else SizeSubs(s, k - 1) + Size(s.subs[k - 1].1)
  }

  function SizeAll(q: seq<Node>): nat {
    if q == [] then 0 else SizeAll(q[..|q| - 1]) + Size(q[|q| - 1].sys)
  }

  /** All systems below and including a node. */
  ghost function Nodes(n: Node): multiset<Node>
    decreases n.sys, 0
  {
    multiset{n} + NodesBelow(n, |n.sys.subs|)
  }

  ghost function NodesBelow(n: Node, k: nat): multiset<Node>
    requires k <= |n.sys.subs|
    decreases n.sys, 0, k
  {
    if k == 0 then multiset{} else NodesBelow(n, k - 1) + Nodes(Children(n)[k - 1])
  }

  ghost function NodesAll(q: seq<Node>): multiset<Node> {
    if q == [] then multiset{} else NodesAll(q[..|q| - 1]) + Nodes(q[|q| - 1])
  }

  lemma {:induction false} NodesAppend(a: seq<Node>, b: seq<Node>)
    ensures NodesAll(a + b) == NodesAll(a) + NodesAll(b)
    ensures SizeAll(a + b) == SizeAll(a) + SizeAll(b)
  {
    if b == [] {
      assert a + b == a;
    } else {
      assert (a + b)[..|a + b| - 1] == a + b[..|b| - 1];
      NodesAppend(a, b[..|b| - 1]);
    }
  }

  /** Unfolding a queue from its end. */
  lemma NodesLast(q: seq<Node>, k: nat)
    requires 0 < k <= |q|
    ensures NodesAll(q[..k]) == NodesAll(q[..k - 1]) + Nodes(q[k - 1])
    ensures SizeAll(q[..k]) == SizeAll(q[..k - 1]) + Size(q[k - 1].sys)
  {
    assert q[..k][..k - 1] == q[..k - 1];
  }

  lemma BelowStep(n: Node, k: nat)
    requires k <= |n.sys.subs|
    ensures k == 0 ==> NodesBelow(n, k) == multiset{} && SizeSubs(n.sys, k) == 0
    ensures k > 0 ==> NodesBelow(n, k) == NodesBelow(n, k - 1) + Nodes(Children(n)[k - 1])
    ensures k > 0 ==> SizeSubs(n.sys, k) == SizeSubs(n.sys, k - 1) + Size(Children(n)[k - 1].sys)
  {
  }

  lemma {:induction false} NodesOfChildren(n: Node, k: nat)
    requires k <= |n.sys.subs|
    ensures NodesBelow(n, k) == NodesAll(Children(n)[..k])
    ensures SizeSubs(n.sys, k) == SizeAll(Children(n)[..k])
  {
    hide NodesBelow, SizeSubs, Nodes, Size, Children;
    BelowStep(n, k);
    if k > 0 {
      hide NodesAll, SizeAll;
      NodesOfChildren(n, k - 1);
      NodesLast(Children(n), k);
    } else {
      assert Children(n)[..0] == [];
    }
  }

  ghost predicate SortedByDepth(order: seq<Node>) {
    forall i, j :: 0 <= i < j < |order| ==> |order[i].path| <= |order[j].path|
  }

  lemma NodesSingle(n: Node)
    ensures NodesAll([n]) == multiset{n} + NodesAll(Children(n))
    ensures SizeAll([n]) == 1 + SizeAll(Children(n))
  {
    hide Children;
    NodesOfChildren(n, |n.sys.subs|);
    assert Children(n)[..|n.sys.subs|] == Children(n);
    assert [n][..0] == [];
  }

  /** Taking the head of the queue and appending its children keeps all systems accounted for. */
  lemma QueueStep(queue: seq<Node>)
    requires queue != []
    ensures var next := queue[1..] + Children(queue[0]);
            && multiset{queue[0]} + NodesAll(next) == NodesAll(queue)
            && SizeAll(next) < SizeAll(queue)
  {
    hide Nodes, NodesAll, SizeAll, Children;
    var n := queue[0];
    assert queue == [n] + queue[1..];
    NodesAppend([n], queue[1..]);
    NodesAppend(queue[1..], Children(n));
    NodesSingle(n);
  }

  /** The children of the head may be appended without disturbing the order, since the queue spans two levels. */
  lemma DepthStep(order: seq<Node>, queue: seq<Node>)
    requires queue != [] && SortedByDepth(order + queue)
    requires forall i :: 0 <= i < |queue| ==> |queue[i].path| <= |queue[0].path| + 1
    ensures var next := queue[1..] + Children(queue[0]);
            && SortedByDepth(order + [queue[0]] + next)
            && forall i :: 0 <= i < |next| ==> |next[i].path| <= |next[0].path| + 1
  {
    var was, kids := order + queue, Children(queue[0]);
    var next := queue[1..] + kids;
    var now := order + [queue[0]] + next;
    assert now == was + kids;
    forall i, j | 0 <= i < j < |now|
      ensures |now[i].path| <= |now[j].path|
    {
      if i < |was| {
        assert was[i] == now[i];
        assert i >= |order| ==> was[i] == queue[i - |order|];
        assert i < |order| ==> |was[i].path| <= |was[|order|].path|;
      }
    }
    if next != [] {
      assert |order| + 1 < |now| && now[|order| + 1] == next[0];
      assert |now[|order|].path| <= |next[0].path|;
    }
  }

  /** The queue walk visits every system of the tree exactly once, in non-decreasing depth. */
  method BreadthFirst(root: System) returns (order: seq<Node>)
    ensures multiset(order) == Nodes(Node([], root))
    ensures SortedByDepth(order)
  {
    hide Nodes, NodesAll, SizeAll, Children, SortedByDepth;
    var queue := [Node([], root)];
    order := [];
    StartOfWalk(Node([], root));
    assert order + queue == queue;
    while queue != []
      invariant multiset(order) + NodesAll(queue) == Nodes(Node([], root))
      invariant SortedByDepth(order + queue)
      invariant forall i :: 0 <= i < |queue| ==> |queue[i].path| <= |queue[0].path| + 1
      decreases SizeAll(queue)
    {
      var next := queue[0];
      QueueStep(queue);
      DepthStep(order, queue);
      queue := queue[1..] + Children(next);
      order := order + [next];
    }
    EndOfWalk(order);
  }

  lemma StartOfWalk(n: Node)
    ensures NodesAll([n]) == Nodes(n) && SortedByDepth([n])
  {
    hide Nodes;
    assert [n][..0] == [];
  }

  lemma EndOfWalk(order: seq<Node>)
    ensures NodesAll([]) == multiset{} && order + [] == order
  {
  }

  /** Whether n is the system at its path. */
  predicate InTree(root: System, n: Node) {
    SubAt(root, n.path) == Some(n.sys)
  }

  lemma {:induction false} SubAtStep(s: System, p: Path, n: Name)
    ensures SubAt(s, p + [n]) ==
            match SubAt(s, p) case None => None case Some(t) => Find(t.subs, n)
    decreases |p|
  {
    if p == [] {
      assert [n][1..] == [];
    } else {
      assert (p + [n])[0] == p[0] && (p + [n])[1..] == p[1..] + [n];
      if Find(s.subs, p[0]).Some? {
        SubAtStep(Find(s.subs, p[0]).value, p[1..], n);
      }
    }
  }

  /** Every node below n is in the tree that n is in. */
  lemma {:induction false} NodesInTree(root: System, n: Node, m: Node)
    requires InTree(root, n) && WellFormed(n.sys) && m in Nodes(n)
    ensures InTree(root, m)
    decreases n.sys, 0
  {
    if m != n {
      BelowInTree(root, n, |n.sys.subs|, m);
    }
  }

  lemma {:induction false} BelowInTree(root: System, n: Node, k: nat, m: Node)
    requires InTree(root, n) && WellFormed(n.sys) && k <= |n.sys.subs| && m in NodesBelow(n, k)
    ensures InTree(root, m)
    decreases n.sys, 0, k
  {
    if m in NodesBelow(n, k - 1) {
      BelowInTree(root, n, k - 1, m);
    } else {
      SubAtStep(root, n.path, n.sys.subs[k - 1].0);
      FindDistinct(n.sys.subs, k - 1);
      NodesInTree(root, Children(n)[k - 1], m);
    }
  }

  lemma {:induction false} ChildNodes(n: Node, i: nat, k: nat)
    requires i < k <= |n.sys.subs|
    ensures Nodes(Children(n)[i]) <= NodesBelow(n, k)
  {
    if i < k - 1 {
      ChildNodes(n, i, k - 1);
    }
  }

  /** And every system that a path leads to is among them. */
  lemma {:induction false} TreeInNodes(n: Node, p: Path, t: System)
    requires SubAt(n.sys, p) == Some(t)
    ensures Node(n.path + p, t) in Nodes(n)
    decreases |p|
  {
    if p == [] {
      assert n.path + p == n.path;
    } else {
      var i :| 0 <= i < |n.sys.subs| && n.sys.subs[i] == (p[0], Find(n.sys.subs, p[0]).value);
      var c := Children(n)[i];
      TreeInNodes(c, p[1..], t);
      assert c.path + p[1..] == n.path + p;
      ChildNodes(n, i, |n.sys.subs|);
    }
  }

  /** The breadth-first order holds exactly the systems of the tree. */
  lemma OrderIsTree(root: System, order: seq<Node>, n: Node)
    requires WellFormed(root) && multiset(order) == Nodes(Node([], root))
    ensures n in order <==> InTree(root, n)
  {
    if n in order {
      assert n in multiset(order);
      NodesInTree(root, Node([], root), n);
    }
    if InTree(root, n) {
      TreeInNodes(Node([], root), n.path, n.sys);
      assert [] + n.path == n.path;
      assert n in multiset(order);
    }
  }

  lemma {:induction false} NodesBelowPath(n: Node, k: nat, m: Node)
    requires k <= |n.sys.subs| && m in NodesBelow(n, k)
    ensures n.path < m.path && exists i :: 0 <= i < k && n.sys.subs[i].0 == m.path[|n.path|]
    decreases n.sys, 0, k
  {
    if m in NodesBelow(n, k - 1) {
      NodesBelowPath(n, k - 1, m);
    } else {
      ChildPath(n, k - 1, m);
    }
  }

  lemma {:induction false} ChildPath(n: Node, i: nat, m: Node)
    requires i < |n.sys.subs| && m in Nodes(Children(n)[i])
    ensures n.path < m.path && n.sys.subs[i].0 == m.path[|n.path|]
    decreases n.sys.subs[i].1, 1
  {
    var c := Children(n)[i];
    if m != c {
      NodesBelowPath(c, |c.sys.subs|, m);
    }
    assert c.path <= m.path && c.path[|n.path|] == n.sys.subs[i].0;
  }

  /** In a well-formed tree no system occurs twice. */
  lemma {:induction false} NodesOnce(n: Node, m: Node)
    requires WellFormed(n.sys)
    ensures Nodes(n)[m] <= 1
    decreases n.sys, 1
  {
    BelowOnce(n, |n.sys.subs|, m);
    if n in NodesBelow(n, |n.sys.subs|) {
      NodesBelowPath(n, |n.sys.subs|, n);
    }
  }

  lemma {:induction false} BelowOnce(n: Node, k: nat, m: Node)
    requires WellFormed(n.sys) && k <= |n.sys.subs|
    ensures NodesBelow(n, k)[m] <= 1
    decreases n.sys, 0, k
  {
    if k > 0 {
      var c := Children(n)[k - 1];
      BelowOnce(n, k - 1, m);
      NodesOnce(c, m);
      if m in NodesBelow(n, k - 1) && m in Nodes(c) {
        NodesBelowPath(n, k - 1, m);
        ChildPath(n, k - 1, m);
      }
    }
  }

  /** So the walk meets every path once. */
  lemma OrderIsOnce(root: System, order: seq<Node>, i: nat, j: nat)
    requires WellFormed(root) && multiset(order) == Nodes(Node([], root))
    requires i < j < |order|
    ensures order[i].path != order[j].path
  {
    if order[i].path == order[j].path {
      OrderIsTree(root, order, order[i]);
      OrderIsTree(root, order, order[j]);
      Twice(order, i, j);
      NodesOnce(Node([], root), order[i]);
    }
  }

  lemma Twice(order: seq<Node>, i: nat, j: nat)
    requires i < j < |order| && order[i] == order[j]
    ensures multiset(order)[order[i]] >= 2
  {
    assert order == order[..j] + [order[j]] + order[j + 1..];
    assert order[i] in multiset(order[..j]);
  }
}
