/** The table of node configurations, and the launch that uses it. */
module NodeConfig {
  import opened Common
  import opened Composition
  import opened Configure
  import opened Fqn

  ghost predicate Defines(n: Node, name: Name) {
    exists j :: 0 <= j < |n.sys.nodecfgs| && n.sys.nodecfgs[j].0 == name
  }

  /** v is what the first of the systems that define the name gives it. */
  ghost predicate FromFirst(order: seq<Node>, name: Name, v: int) {
    exists i :: 0 <= i < |order| && (name, v) in order[i].sys.nodecfgs &&
                forall k :: 0 <= k < i ==> !Defines(order[k], name)
  }

  /** The names met so far: in systems before i, and among the first j entries of system i. */
  ghost predicate Met(order: seq<Node>, i: nat, j: nat, name: Name)
    requires i <= |order| && (i < |order| ==> j <= |order[i].sys.nodecfgs|)
  {
    || (exists k :: 0 <= k < i && Defines(order[k], name))
    || (i < |order| && exists k :: 0 <= k < j && order[i].sys.nodecfgs[k].0 == name)
  }

  method BuildTab(order: seq<Node>) returns (nc: map<Name, int>)
    ensures forall name :: name in nc <==> exists i :: 0 <= i < |order| && Defines(order[i], name)
    ensures forall name :: name in nc ==> FromFirst(order, name, nc[name])
  {
    nc := map[];
    for i := 0 to |order|
      invariant forall name :: name in nc <==> Met(order, i, 0, name)
      invariant forall name :: name in nc ==> FromFirst(order, name, nc[name])
    {
      var cfgs := order[i].sys.nodecfgs;
      for j := 0 to |cfgs|
        invariant forall name :: name in nc <==> Met(order, i, j, name)
        invariant forall name :: name in nc ==> FromFirst(order, name, nc[name])
      {
        var (name, v) := cfgs[j];
        if name !in nc {
          assert (name, v) in cfgs;
          assert FromFirst(order, name, v);
          nc := nc[name := v];
        }
      }
      assert forall name :: Met(order, i, |cfgs|, name) <==> Met(order, i + 1, 0, name);
    }
  }

  /** The table chosen for a composition: each name comes from a system of least depth among all that define it. */
  ghost predicate Shallowest(root: System, nc: map<Name, int>) {
    && (forall n, name :: InTree(root, n) && Defines(n, name) ==> name in nc)
    && forall name :: name in nc ==>
         exists n :: InTree(root, n) && (name, nc[name]) in n.sys.nodecfgs &&
                     forall m :: InTree(root, m) && Defines(m, name) ==> |n.path| <= |m.path|
  }

  method BuildNodecfgTab(root: System) returns (nc: map<Name, int>)
    requires WellFormed(root)
    ensures Shallowest(root, nc)
  {
    var order := BreadthFirst(root);
    nc := BuildTab(order);
    hide Nodes, Defines;
    forall n ensures n in order <==> InTree(root, n) {
      OrderIsTree(root, order, n);
    }
    forall name | name in nc
      ensures exists n :: InTree(root, n) && (name, nc[name]) in n.sys.nodecfgs &&
                          forall m :: InTree(root, m) && Defines(m, name) ==> |n.path| <= |m.path|
    {
      var i :| 0 <= i < |order| && (name, nc[name]) in order[i].sys.nodecfgs &&
               forall k :: 0 <= k < i ==> !Defines(order[k], name);
      assert order[i] in order;
      forall m | InTree(root, m) && Defines(m, name)
        ensures |order[i].path| <= |m.path|
      {
        assert m in order;
        var k :| 0 <= k < |order| && order[k] == m;
        assert k >= i;
      }
    }
  }

  /** What a value means for the tree alone: itself, or what a system of least depth defines under the name. */
  ghost predicate MeansInTree(root: System, val: Value, v: int) {
    match val
    case Plain(w) => v == w
    case NodeRef(name) =>
      exists n :: InTree(root, n) && (name, v) in n.sys.nodecfgs &&
                  forall m :: InTree(root, m) && Defines(m, name) ==> |n.path| <= |m.path|
  }

  /** What is set to a root-most value is what this value means. */
  lemma ResolvedInTree(e: Env, val: Value)
    requires Shallowest(e.root, e.nc)
    ensures Resolved(e, val).Some? ==> MeansInTree(e.root, val, Resolved(e, val).value)
    ensures Resolved(e, val).None? <==>
            val.NodeRef? && forall n :: InTree(e.root, n) ==> !Defines(n, val.name)
  {
    hide InTree;
    if val.NodeRef? && val.name in e.nc {
      var n :| InTree(e.root, n) && (val.name, e.nc[val.name]) in n.sys.nodecfgs &&
               forall m :: InTree(e.root, m) && Defines(m, val.name) ==> |n.path| <= |m.path|;
      var j :| 0 <= j < |n.sys.nodecfgs| && n.sys.nodecfgs[j] == (val.name, e.nc[val.name]);
      assert Defines(n, val.name);
    }
  }

  lemma SetsInTree(e: Env, sets: seq<Assigned>)
    requires Shallowest(e.root, e.nc) && OnePerString(e, sets)
    ensures forall i :: 0 <= i < |sets| ==>
              var val := RootMost(e.root, sets[i].id.block, sets[i].id.key);
              val.Some? && MeansInTree(e.root, val.value, sets[i].v)
  {
    hide Shallowest, RootMost, CfgFqn, MeansInTree, Resolved;
    forall i | 0 <= i < |sets|
      ensures var val := RootMost(e.root, sets[i].id.block, sets[i].id.key);
              val.Some? && MeansInTree(e.root, val.value, sets[i].v)
    {
      assert Wanted(e, sets[i].id) == RootMost(e.root, sets[i].id.block, sets[i].id.key);
      ResolvedInTree(e, Wanted(e, sets[i].id).value);
    }
  }

  /** Configuring a composition: node configurations first, then the blocks with them. */
  method LaunchConfigs(root: System, before: set<Id>, after: set<Id>) returns (ok: bool, sets: seq<Assigned>)
    requires WellFormed(root)
    ensures exists nc :: Shallowest(root, nc) &&
                         var e := Env(root, nc, before, after);
                         && (Distinct(e) ==> (ok <==> Launchable(e)))
                         && (ok ==> OnePerString(e, sets) && (HighestWins(e, sets) <==> Distinct(e)))
    ensures ok ==> forall i :: 0 <= i < |sets| ==>
              var val := RootMost(root, sets[i].id.block, sets[i].id.key);
              val.Some? && MeansInTree(root, val.value, sets[i].v)
  {
    hide Launchable, HighestWins, Shallowest, Distinct, OnePerString;
    var nc := BuildNodecfgTab(root);
    var l := new Launch(Env(root, nc, before, after));
    ghost var order;
    ok, order := l.ConfigureBlocks();
    sets := l.sets;
    if ok {
      SetsInTree(Env(root, nc, before, after), sets);
    }
  }
}
