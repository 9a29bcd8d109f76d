/** Two-phase configuration of all blocks of a composition: the highest level wins, and every value is set once. */
module Configure {
  import opened Common
  import opened Composition
  import opened Fqn

  datatype Setting = Setting(id: Id, val: Value)

  /** A call that set a configuration to a value. */
  datatype Assigned = Assigned(id: Id, v: int)

  /** A configuration entry together with the system it was found in. */
  datatype Job = Job(node: Node, cfg: Config)

  /** The composition, its node configurations, and which configurations exist before and after initialisation. */
  datatype Env = Env(root: System, nc: map<Name, int>, before: set<Id>, after: set<Id>)

  /** The two tables hold strings; `sets` records the calls. */
  datatype Progress = Progress(configured: set<string>, nonexist: set<string>, sets: seq<Assigned>, aborted: bool)

  /** All entries in the order in which a breadth-first walk finds them. */
  function Jobs(order: seq<Node>): seq<Job> {
    if order == [] then []
    else
      var n := order[|order| - 1];
      Jobs(order[..|order| - 1]) + JobsIn(n, |n.sys.configs|)
  }

  /** The first k entries of one system. */
  function JobsIn(n: Node, k: nat): seq<Job>
    requires k <= |n.sys.configs|
  {
    seq(k, i requires 0 <= i < k => Job(n, n.sys.configs[i]))
  }

  function SettingAt(job: Job, i: nat): Setting
    requires i < |job.cfg.values|
  {
    Setting(Id(job.node.path + job.cfg.target, job.cfg.values[i].0), job.cfg.values[i].1)
  }

  function SettingsOf(job: Job): seq<Setting> {
    seq(|job.cfg.values|, i requires 0 <= i < |job.cfg.values| => SettingAt(job, i))
  }

  function Settings(jobs: seq<Job>): seq<Setting> {
    if jobs == [] then [] else Settings(jobs[..|jobs| - 1]) + SettingsOf(jobs[|jobs| - 1])
  }

  /** Whether the entry leads to a block. */
  predicate Resolves(root: System, job: Job) {
    var t := job.cfg.target;
    && t != []
    && var s := SubAt(job.node.sys, t[..|t| - 1]);
       s.Some? && t[|t| - 1] in s.value.blocks
  }

  function Resolved(e: Env, val: Value): Option<int> {
    match val
    case Plain(v) => Some(v)
    case NodeRef(n) => if n in e.nc then Some(e.nc[n]) else None
  }

  /** Sets one configuration, unless it refers to an unknown node configuration. */
  function ApplyVal(e: Env, p: Progress, s: Setting): Progress {
    match Resolved(e, s.val)
    case None => p.(aborted := true)
    case Some(v) => p.(configured := p.configured + {CfgFqn(s.id)}, sets := p.sets + [Assigned(s.id, v)])
  }

  function Apply(e: Env, p: Progress, s: Setting): Progress {
    if p.aborted then p
    else if s.id !in e.before then p.(nonexist := p.nonexist + {CfgFqn(s.id)})
    else if CfgFqn(s.id) in p.configured then p
    else ApplyVal(e, p, s)
  }

  function Reapply(e: Env, p: Progress, s: Setting): Progress {
    if p.aborted || CfgFqn(s.id) !in p.nonexist then p
    else if s.id !in e.after then p.(aborted := true)
    else if CfgFqn(s.id) in p.configured then p
    else ApplyVal(e, p, s)
  }

  function Pass(e: Env, again: bool, p: Progress, s: Setting): Progress {
    if again then Reapply(e, p, s) else Apply(e, p, s)
  }

  /** A pass over some settings. */
  function PassAll(e: Env, again: bool, p: Progress, ss: seq<Setting>): Progress {
    if ss == [] then p else Pass(e, again, PassAll(e, again, p, ss[..|ss| - 1]), ss[|ss| - 1])
  }

  /** A pass over some entries; one that leads to no block ends the launch. */
  function PassJobs(e: Env, again: bool, p: Progress, jobs: seq<Job>): Progress {
    if jobs == [] then p
    else
      var q := PassJobs(e, again, p, jobs[..|jobs| - 1]);
      var job := jobs[|jobs| - 1];
      if q.aborted then q
      else if !Resolves(e.root, job) then q.(aborted := true)
      else PassAll(e, again, q, SettingsOf(job))
  }

  /** The value that the first entry for target t gives to key. */
  function EntryValue(configs: seq<Config>, t: Path, key: Name): Option<Value> {
    if configs == [] then None
    else
      var r := EntryValue(configs[..|configs| - 1], t, key);
      var c := configs[|configs| - 1];
      if r.None? && c.target == t then Find(c.values, key) else r
  }

  /** The value given to key of the block at t by the highest system on the way to the block that mentions it. */
  function RootMost(s: System, t: Path, key: Name): Option<Value>
    decreases |t|
  {
    var own := EntryValue(s.configs, t, key);
    if own.Some? || |t| <= 1 then own
    else match Find(s.subs, t[0]) case None => None case Some(u) => RootMost(u, t[1..], key)
  }

  function Wanted(e: Env, id: Id): Option<Value> {
    RootMost(e.root, id.block, id.key)
  }

  ghost predicate TargetsResolve(root: System) {
    forall n, c :: InTree(root, n) && c in n.sys.configs ==> Resolves(root, Job(n, c))
  }

  /** Every entry leads to a block, and every mentioned configuration exists in time and has a known value. */
  ghost predicate Launchable(e: Env) {
    && TargetsResolve(e.root)
    && forall id :: Wanted(e, id).Some? ==>
         (id in e.before || id in e.after) && Resolved(e, Wanted(e, id).value).Some?
  }

  /** No two mentioned configurations share their string. */
  ghost predicate Distinct(e: Env) {
    forall a, b :: Wanted(e, a).Some? && Wanted(e, b).Some? && CfgFqn(a) == CfgFqn(b) ==> a == b
  }

  /**
    * Of the mentioned configurations with the same string exactly one is set, once, and to the value wanted by the
    * highest system that mentions it; no other is set.
    */
  ghost predicate OnePerString(e: Env, sets: seq<Assigned>) {
    && (forall i, j :: 0 <= i < j < |sets| ==> CfgFqn(sets[i].id) != CfgFqn(sets[j].id))
    && (forall i :: 0 <= i < |sets| ==>
          Wanted(e, sets[i].id).Some? && Resolved(e, Wanted(e, sets[i].id).value) == Some(sets[i].v))
    && (forall id :: Wanted(e, id).Some? ==> exists i :: 0 <= i < |sets| && CfgFqn(sets[i].id) == CfgFqn(id))
  }

  /** Each mentioned configuration is set exactly once, to the value wanted by the highest system, and no other is. */
  ghost predicate HighestWins(e: Env, sets: seq<Assigned>) {
    && (forall i, j :: 0 <= i < j < |sets| ==> sets[i].id != sets[j].id)
    && (forall i :: 0 <= i < |sets| ==>
          Wanted(e, sets[i].id).Some? && Resolved(e, Wanted(e, sets[i].id).value) == Some(sets[i].v))
    && (forall id :: Wanted(e, id).Some? ==> exists i :: 0 <= i < |sets| && sets[i].id == id)
  }

  const START := Progress({}, {}, [], false)

  /** Follows the names of subsystems to the block that the last name stands for. */
  method BlocktabGet(sys: System, target: Path) returns (found: bool)
    ensures found <==> target != [] && exists s :: SubAt(sys, target[..|target| - 1]) == Some(s) &&
                                                   target[|target| - 1] in s.blocks
  {
    if target == [] {
      return false;
    }
    var s := sys;
    assert target[..0] == [];
    for i := 0 to |target| - 1
      invariant SubAt(sys, target[..i]) == Some(s)
    {
      assert target[..i + 1] == target[..i] + [target[i]];
      SubAtStep(sys, target[..i], target[i]);
      var sub := Find(s.subs, target[i]);
      if sub.None? {
        NothingBelow(sys, target, i + 1, |target| - 1);
        return false;
      }
      s := sub.value;
    }
    for i := 0 to |s.blocks|
      invariant forall j :: 0 <= j < i ==> s.blocks[j] != target[|target| - 1]
    {
      if s.blocks[i] == target[|target| - 1] {
        return true;
      }
    }
    found := false;
  }

  class Launch {
    const e: Env
    var configured: set<string>
    var nonexist: set<string>
    var sets: seq<Assigned>
    var aborted: bool

    ghost function Value(): Progress
      reads this
    {
      Progress(configured, nonexist, sets, aborted)
    }

    constructor (e: Env)
      ensures this.e == e && Value() == START
    {
      this.e := e;
      configured, nonexist, sets, aborted := {}, {}, [], false;
    }

    method ApplyCfgVal(s: Setting)
      requires !aborted
      modifies this
      ensures Value() == ApplyVal(e, old(Value()), s)
    {
      var v := Resolved(e, s.val);
      if v.None? {
        aborted := true;
        return;
      }
      sets := sets + [Assigned(s.id, v.value)];
      configured := configured + {CfgFqn(s.id)};
    }

    method ApplyConfig(job: Job)
      requires !aborted
      modifies this
      ensures Value() == PassAll(e, false, old(Value()), SettingsOf(job))
    {
      ghost var ss := SettingsOf(job);
      assert ss[..0] == [];
      for i := 0 to |job.cfg.values|
        invariant Value() == PassAll(e, false, old(Value()), ss[..i])
      {
        assert ss[..i + 1][..i] == ss[..i];
        if !aborted {
          var s := SettingAt(job, i);
          if s.id !in e.before {
            nonexist := nonexist + {CfgFqn(s.id)};
          } else if CfgFqn(s.id) !in configured {
            ApplyCfgVal(s);
          }
        }
      }
      assert ss[..|ss|] == ss;
    }

    method ReapplyConfig(job: Job)
      requires !aborted
      modifies this
      ensures Value() == PassAll(e, true, old(Value()), SettingsOf(job))
    {
      ghost var ss := SettingsOf(job);
      assert ss[..0] == [];
      for i := 0 to |job.cfg.values|
        invariant Value() == PassAll(e, true, old(Value()), ss[..i])
      {
        assert ss[..i + 1][..i] == ss[..i];
        if !aborted {
          var s := SettingAt(job, i);
          if CfgFqn(s.id) in nonexist {
            if s.id !in e.after {
              aborted := true;
            } else if CfgFqn(s.id) !in configured {
              ApplyCfgVal(s);
            }
          }
        }
      }
      assert ss[..|ss|] == ss;
    }

    method OnePass(again: bool, jobs: seq<Job>)
      modifies this
      ensures Value() == PassJobs(e, again, old(Value()), jobs)
    {
      assert jobs[..0] == [];
      for i := 0 to |jobs|
        invariant Value() == PassJobs(e, again, old(Value()), jobs[..i])
      {
        assert jobs[..i + 1][..i] == jobs[..i];
        if !aborted {
          var found := BlocktabGet(jobs[i].node.sys, jobs[i].cfg.target);
          if !found {
            aborted := true;
          } else if again {
            ReapplyConfig(jobs[i]);
          } else {
            ApplyConfig(jobs[i]);
          }
        }
      }
      assert jobs[..|jobs|] == jobs;
    }

    /**
      * Configures what exists, and after the blocks were initialised what exists only then. The highest level wins
      * everywhere exactly if no two mentioned configurations share their string. Whether the launch succeeds depends
      * on the order of the walk only if some do.
      */
    method ConfigureBlocks() returns (ok: bool, ghost order: seq<Node>)
      requires Value() == START && WellFormed(e.root)
      modifies this
      ensures multiset(order) == Nodes(Node([], e.root)) && SortedByDepth(order)
      ensures ok <==> TargetsResolve(e.root) && NothingStops(e, order)
      ensures Distinct(e) ==> (ok <==> Launchable(e))
      ensures ok ==> OnePerString(e, sets) && (HighestWins(e, sets) <==> Distinct(e))
    {
      var walk := BreadthFirst(e.root);
      order := walk;
      var jobs := Jobs(walk);
      OnePass(false, jobs);
      OnePass(true, jobs);
      ok := !aborted;
      PassesDecide(e, order);
    }
  }

  // The first setting of a list wins

  function First(ss: seq<Setting>, id: Id): Option<Value> {
    if ss == [] then None
    else
      var r := First(ss[..|ss| - 1], id);
      if r.None? && ss[|ss| - 1].id == id then Some(ss[|ss| - 1].val) else r
  }

  lemma FirstSnoc(ss: seq<Setting>, k: nat, id: Id)
    requires k < |ss|
    ensures First(ss[..k + 1], id) ==
            if First(ss[..k], id).None? && ss[k].id == id then Some(ss[k].val) else First(ss[..k], id)
  {
    assert ss[..k + 1][..k] == ss[..k];
  }

  lemma {:induction false} FirstAppend(a: seq<Setting>, b: seq<Setting>, id: Id)
    ensures First(a + b, id) == if First(a, id).Some? then First(a, id) else First(b, id)
  {
    if b == [] {
      assert a + b == a;
    } else {
      assert (a + b)[..|a + b| - 1] == a + b[..|b| - 1];
      FirstAppend(a, b[..|b| - 1], id);
    }
  }

  lemma {:induction false} FirstOfPrefix(ss: seq<Setting>, k: nat, id: Id)
    requires k <= |ss| && First(ss[..k], id).Some?
    ensures First(ss, id) == First(ss[..k], id)
  {
    assert ss == ss[..k] + ss[k..];
    FirstAppend(ss[..k], ss[k..], id);
  }

  lemma {:induction false} FirstIsMentioned(ss: seq<Setting>, id: Id)
    ensures First(ss, id).Some? <==> exists i :: 0 <= i < |ss| && ss[i].id == id
  {
    if ss != [] {
      var rest := ss[..|ss| - 1];
      FirstIsMentioned(rest, id);
      if exists i :: 0 <= i < |ss| && ss[i].id == id {
        var i :| 0 <= i < |ss| && ss[i].id == id;
        assert i < |rest| ==> rest[i].id == id;
      }
      if First(rest, id).Some? {
        var i :| 0 <= i < |rest| && rest[i].id == id;
        assert ss[i].id == id;
      }
    }
  }

  // What the two passes do to a list of settings

  /** One call was made for each configured string, for an item that is mentioned, with the value first given to it. */
  ghost predicate Exact(e: Env, ss: seq<Setting>, p: Progress) {
    && (forall i, j :: 0 <= i < j < |p.sets| ==> CfgFqn(p.sets[i].id) != CfgFqn(p.sets[j].id))
    && (forall i :: 0 <= i < |p.sets| ==>
          && CfgFqn(p.sets[i].id) in p.configured
          && First(ss, p.sets[i].id).Some?
          && Resolved(e, First(ss, p.sets[i].id).value) == Some(p.sets[i].v))
    && (forall x :: x in p.configured ==> exists i :: 0 <= i < |p.sets| && CfgFqn(p.sets[i].id) == x)
  }

  /** Setting an item whose string is not configured yet, to the value first given to it, keeps the calls exact. */
  lemma ExactApply(e: Env, ss: seq<Setting>, p: Progress, s: Setting)
    requires Exact(e, ss, p) && CfgFqn(s.id) !in p.configured && First(ss, s.id) == Some(s.val)
    requires !p.aborted && Resolved(e, s.val).Some?
    ensures Exact(e, ss, ApplyVal(e, p, s))
    ensures ApplyVal(e, p, s).configured == p.configured + {CfgFqn(s.id)} && !ApplyVal(e, p, s).aborted
  {
    hide First, Resolved, CfgFqn;
    var q := ApplyVal(e, p, s);
    forall x | x in q.configured
      ensures exists i :: 0 <= i < |q.sets| && CfgFqn(q.sets[i].id) == x
    {
      if x == CfgFqn(s.id) {
        assert CfgFqn(q.sets[|p.sets|].id) == x;
      } else {
        var i :| 0 <= i < |p.sets| && CfgFqn(p.sets[i].id) == x;
        assert q.sets[i] == p.sets[i];
      }
    }
  }

  /** A setting that keeps the launch from succeeding. */
  ghost predicate Blocks(e: Env, ss: seq<Setting>, id: Id) {
    First(ss, id).Some? &&
    ((id !in e.before && id !in e.after) || Resolved(e, First(ss, id).value).None?)
  }

  ghost predicate DistinctIn(ss: seq<Setting>) {
    forall i, j :: 0 <= i < |ss| && 0 <= j < |ss| && CfgFqn(ss[i].id) == CfgFqn(ss[j].id) ==> ss[i].id == ss[j].id
  }

  /** The string is that of one of the first k settings, for an item that exists before initialisation. */
  ghost predicate Early(e: Env, ss: seq<Setting>, k: nat, x: string)
    requires k <= |ss|
  {
    exists i :: 0 <= i < k && ss[i].id in e.before && CfgFqn(ss[i].id) == x
  }

  /** The same for an item that does not. */
  ghost predicate Late(e: Env, ss: seq<Setting>, k: nat, x: string)
    requires k <= |ss|
  {
    exists i :: 0 <= i < k && ss[i].id !in e.before && CfgFqn(ss[i].id) == x
  }

  ghost predicate Mentioned(ss: seq<Setting>, k: nat, x: string)
    requires k <= |ss|
  {
    exists i :: 0 <= i < k && CfgFqn(ss[i].id) == x
  }

  lemma KeysSnoc(e: Env, ss: seq<Setting>, k: nat, x: string)
    requires k < |ss|
    ensures Early(e, ss, k + 1, x) <==> Early(e, ss, k, x) || (ss[k].id in e.before && CfgFqn(ss[k].id) == x)
    ensures Late(e, ss, k + 1, x) <==> Late(e, ss, k, x) || (ss[k].id !in e.before && CfgFqn(ss[k].id) == x)
    ensures Mentioned(ss, k + 1, x) <==> Mentioned(ss, k, x) || CfgFqn(ss[k].id) == x
  {
    hide CfgFqn;
  }

  /** The first setting with its item is the one at k, unless an earlier one has the same string and the same item. */
  lemma FirstAt(e: Env, ss: seq<Setting>, k: nat)
    requires k < |ss|
    requires if ss[k].id in e.before then !Early(e, ss, k, CfgFqn(ss[k].id)) else !Late(e, ss, k, CfgFqn(ss[k].id))
    ensures First(ss, ss[k].id) == Some(ss[k].val)
  {
    hide CfgFqn, First;
    var id := ss[k].id;
    FirstIsMentioned(ss[..k], id);
    assert forall i :: 0 <= i < k ==> ss[..k][i].id == ss[i].id != id;
    FirstSnoc(ss, k, id);
    FirstOfPrefix(ss, k + 1, id);
  }

  /** The setting that is made for its string: the first one for an item that exists early, and else the first one. */
  ghost predicate Winner(e: Env, ss: seq<Setting>, i: nat)
    requires i < |ss|
  {
    var x := CfgFqn(ss[i].id);
    if ss[i].id in e.before then !Early(e, ss, i, x) else !Early(e, ss, |ss|, x) && !Late(e, ss, i, x)
  }

  /** A setting at which the launch ends: its item is looked for and still missing, or its value is unknown. */
  ghost predicate Stops(e: Env, ss: seq<Setting>, i: nat)
    requires i < |ss|
  {
    || (Late(e, ss, |ss|, CfgFqn(ss[i].id)) && ss[i].id !in e.after)
    || (Winner(e, ss, i) && Resolved(e, ss[i].val).None?)
  }

  /** The first pass configures what exists, and remembers what does not. */
  ghost predicate AfterFirst(e: Env, ss: seq<Setting>, k: nat, p: Progress)
    requires k <= |ss|
  {
    if p.aborted then exists i :: 0 <= i < |ss| && Stops(e, ss, i)
    else
      && Exact(e, ss, p)
      && (forall x :: x in p.configured <==> Early(e, ss, k, x))
      && (forall x :: x in p.nonexist <==> Late(e, ss, k, x))
      && (forall i :: 0 <= i < k && ss[i].id in e.before && Winner(e, ss, i) ==> Resolved(e, ss[i].val).Some?)
  }

  lemma {:induction false} FirstPass(e: Env, ss: seq<Setting>, k: nat)
    requires k <= |ss|
    ensures AfterFirst(e, ss, k, PassAll(e, false, START, ss[..k]))
  {
    if k > 0 {
      hide AfterFirst, Apply, Reapply;
      FirstPass(e, ss, k - 1);
      assert ss[..k][..k - 1] == ss[..k - 1];
      FirstPassStep(e, ss, k - 1, PassAll(e, false, START, ss[..k - 1]));
    } else {
      hide CfgFqn, Winner, Resolved, First;
      assert ss[..0] == [];
    }
  }

  lemma FirstPassStep(e: Env, ss: seq<Setting>, k: nat, p: Progress)
    requires k < |ss| && AfterFirst(e, ss, k, p)
    ensures AfterFirst(e, ss, k + 1, Apply(e, p, ss[k]))
  {
    hide First, Resolved, CfgFqn, Early, Late, Exact, Winner;
    var s := ss[k];
    if s.id in e.before {
      assert Winner(e, ss, k) <==> !Early(e, ss, k, CfgFqn(s.id)) by { EarlyWinner(e, ss, k); }
    }
    forall x
      ensures Early(e, ss, k + 1, x) <==> Early(e, ss, k, x) || (s.id in e.before && CfgFqn(s.id) == x)
      ensures Late(e, ss, k + 1, x) <==> Late(e, ss, k, x) || (s.id !in e.before && CfgFqn(s.id) == x)
    {
      KeysSnoc(e, ss, k, x);
    }
    if !p.aborted {
      if s.id !in e.before {
        ExactFrame(e, ss, p, Apply(e, p, s));
      } else if CfgFqn(s.id) !in p.configured {
        FirstAt(e, ss, k);
        if Resolved(e, s.val).Some? {
          ExactApply(e, ss, p, s);
        } else {
          assert Stops(e, ss, k);
        }
      }
    }
  }

  lemma EarlyWinner(e: Env, ss: seq<Setting>, k: nat)
    requires k < |ss| && ss[k].id in e.before
    ensures Winner(e, ss, k) <==> !Early(e, ss, k, CfgFqn(ss[k].id))
  {
    hide CfgFqn, Early;
  }

  lemma ExactFrame(e: Env, ss: seq<Setting>, p: Progress, q: Progress)
    requires Exact(e, ss, p) && q.sets == p.sets && q.configured == p.configured
    ensures Exact(e, ss, q)
  {
    hide First, Resolved, CfgFqn;
  }

  /** The second pass configures the remembered ones among the first k settings. */
  ghost predicate AfterSecond(e: Env, ss: seq<Setting>, k: nat, p: Progress)
    requires k <= |ss|
  {
    if p.aborted then exists i :: 0 <= i < |ss| && Stops(e, ss, i)
    else
      && Exact(e, ss, p)
      && (forall x :: x in p.configured <==> Early(e, ss, |ss|, x) || (x in p.nonexist && Mentioned(ss, k, x)))
      && (forall x :: x in p.nonexist <==> Late(e, ss, |ss|, x))
      && (forall i :: 0 <= i < k && CfgFqn(ss[i].id) in p.nonexist ==> ss[i].id in e.after)
      && (forall i :: 0 <= i < |ss| && (i < k || ss[i].id in e.before) && Winner(e, ss, i) ==>
            Resolved(e, ss[i].val).Some?)
  }

  lemma {:induction false} SecondPass(e: Env, ss: seq<Setting>, k: nat, p: Progress)
    requires k <= |ss| && AfterFirst(e, ss, |ss|, p)
    ensures AfterSecond(e, ss, k, PassAll(e, true, p, ss[..k]))
  {
    hide CfgFqn, Exact, Early, Late;
    if k > 0 {
      SecondPass(e, ss, k - 1, p);
      assert ss[..k][..k - 1] == ss[..k - 1];
      SecondPassStep(e, ss, k - 1, PassAll(e, true, p, ss[..k - 1]));
    }
  }

  lemma SecondPassStep(e: Env, ss: seq<Setting>, k: nat, p: Progress)
    requires k < |ss| && AfterSecond(e, ss, k, p)
    ensures AfterSecond(e, ss, k + 1, Reapply(e, p, ss[k]))
  {
    hide First, Resolved, CfgFqn, Early, Late, Exact, Mentioned, Winner;
    var s := ss[k];
    var x := CfgFqn(s.id);
    forall y
      ensures Mentioned(ss, k + 1, y) <==> Mentioned(ss, k, y) || x == y
    {
      KeysSnoc(e, ss, k, y);
    }
    if s.id !in e.before {
      LateWinner(e, ss, k);
    }
    if !p.aborted && x in p.nonexist {
      if s.id !in e.after {
        assert Stops(e, ss, k);
      } else if x !in p.configured {
        EarlierMentioned(e, ss, k);
        FirstAt(e, ss, k);
        if Resolved(e, s.val).Some? {
          ExactApply(e, ss, p, s);
        } else {
          assert Stops(e, ss, k);
        }
      }
    }
  }

  lemma LateWinner(e: Env, ss: seq<Setting>, k: nat)
    requires k < |ss| && ss[k].id !in e.before
    ensures Late(e, ss, |ss|, CfgFqn(ss[k].id))
    ensures Winner(e, ss, k) ==>
              !Early(e, ss, |ss|, CfgFqn(ss[k].id)) && !Mentioned(ss, k, CfgFqn(ss[k].id))
  {
    hide CfgFqn;
  }

  lemma EarlierMentioned(e: Env, ss: seq<Setting>, k: nat)
    requires k < |ss| && !Early(e, ss, |ss|, CfgFqn(ss[k].id)) && !Mentioned(ss, k, CfgFqn(ss[k].id))
    ensures ss[k].id !in e.before && !Late(e, ss, k, CfgFqn(ss[k].id)) && Winner(e, ss, k)
  {
    hide CfgFqn;
  }

  /** The passes succeed exactly if no setting stops them, and then one call was made for each string. */
  lemma BothPasses(e: Env, ss: seq<Setting>)
    ensures var p := PassAll(e, true, PassAll(e, false, START, ss), ss);
            && (p.aborted <==> exists i :: 0 <= i < |ss| && Stops(e, ss, i))
            && (!p.aborted ==> Exact(e, ss, p) && forall x :: x in p.configured <==> Mentioned(ss, |ss|, x))
  {
    hide CfgFqn, Exact, First, Resolved, Winner;
    assert ss[..|ss|] == ss;
    FirstPass(e, ss, |ss|);
    SecondPass(e, ss, |ss|, PassAll(e, false, START, ss));
  }

  /** With distinct strings, what stops the passes can be told from the highest systems alone. */
  lemma StopsAreBlocks(e: Env, ss: seq<Setting>)
    requires DistinctIn(ss)
    ensures (exists i :: 0 <= i < |ss| && Stops(e, ss, i)) <==> exists id :: Blocks(e, ss, id)
  {
    hide Stops, Blocks;
    if exists i :: 0 <= i < |ss| && Stops(e, ss, i) {
      var i :| 0 <= i < |ss| && Stops(e, ss, i);
      StopBlocks(e, ss, i);
    }
    if exists id :: Blocks(e, ss, id) {
      var id :| Blocks(e, ss, id);
      var i := BlockStops(e, ss, id);
    }
  }

  lemma StopBlocks(e: Env, ss: seq<Setting>, i: nat)
    requires DistinctIn(ss) && i < |ss| && Stops(e, ss, i)
    ensures Blocks(e, ss, ss[i].id)
  {
    hide CfgFqn, First, Resolved;
    FirstIsMentioned(ss, ss[i].id);
    if Winner(e, ss, i) {
      FirstAt(e, ss, i);
    }
  }

  lemma BlockStops(e: Env, ss: seq<Setting>, id: Id) returns (i: nat)
    requires DistinctIn(ss) && Blocks(e, ss, id)
    ensures i < |ss| && Stops(e, ss, i)
  {
    hide CfgFqn, First, Resolved;
    i := FirstIndex(ss, id);
    assert Winner(e, ss, i);
  }

  lemma {:induction false} FirstIndex(ss: seq<Setting>, id: Id) returns (i: nat)
    requires First(ss, id).Some?
    ensures i < |ss| && ss[i].id == id && First(ss, id) == Some(ss[i].val) && forall j :: 0 <= j < i ==> ss[j].id != id
  {
    var rest := ss[..|ss| - 1];
    if First(rest, id).Some? {
      i := FirstIndex(rest, id);
    } else {
      i := |rest|;
      FirstIsMentioned(rest, id);
      assert forall j :: 0 <= j < i ==> rest[j].id == ss[j].id;
    }
  }

  // From entries to settings

  lemma {:induction false} PassAppend(e: Env, again: bool, p: Progress, a: seq<Setting>, b: seq<Setting>)
    ensures PassAll(e, again, p, a + b) == PassAll(e, again, PassAll(e, again, p, a), b)
  {
    if b == [] {
      assert a + b == a;
    } else {
      hide Pass;
      assert (a + b)[..|a + b| - 1] == a + b[..|b| - 1];
      PassAppend(e, again, p, a, b[..|b| - 1]);
    }
  }

  lemma {:induction false} PassAborted(e: Env, again: bool, p: Progress, ss: seq<Setting>)
    requires p.aborted
    ensures PassAll(e, again, p, ss) == p
  {
    if ss != [] {
      PassAborted(e, again, p, ss[..|ss| - 1]);
    }
  }

  lemma {:induction false} PassEntries(e: Env, again: bool, p: Progress, jobs: seq<Job>)
    ensures (forall j :: j in jobs ==> Resolves(e.root, j)) ==>
              PassJobs(e, again, p, jobs) == PassAll(e, again, p, Settings(jobs))
    ensures (exists j :: j in jobs && !Resolves(e.root, j)) ==> PassJobs(e, again, p, jobs).aborted
    ensures p.aborted ==> PassJobs(e, again, p, jobs).aborted
  {
    if jobs != [] {
      hide PassAll, Resolves;
      var rest, job := jobs[..|jobs| - 1], jobs[|jobs| - 1];
      var q := PassJobs(e, again, p, rest);
      PassEntries(e, again, p, rest);
      PassAppend(e, again, p, Settings(rest), SettingsOf(job));
      if q.aborted {
        PassAborted(e, again, q, SettingsOf(job));
      }
      assert forall j :: j in jobs <==> j in rest || j == job;
    } else {
      assert Settings(jobs) == [];
    }
  }

  lemma {:induction false} JobsOfOrder(order: seq<Node>, job: Job)
    ensures job in Jobs(order) <==> job.node in order && job.cfg in job.node.sys.configs
  {
    if order != [] {
      var rest, n := order[..|order| - 1], order[|order| - 1];
      JobsOfOrder(rest, job);
      var own := JobsIn(n, |n.sys.configs|);
      assert job in own <==> job.node == n && job.cfg in n.sys.configs by {
        if job.node == n && job.cfg in n.sys.configs {
          var i :| 0 <= i < |n.sys.configs| && n.sys.configs[i] == job.cfg;
          assert own[i] == job;
        }
      }
      assert order == rest + [n];
    }
  }

  // The first setting in breadth-first order is the one of the highest system

  /** What system n itself says about a configuration. */
  function Own(n: Node, id: Id): Option<Value> {
    if n.path <= id.block then EntryValue(n.sys.configs, id.block[|n.path|..], id.key) else None
  }

  lemma {:induction false} FirstOfValues(job: Job, k: nat, id: Id)
    requires k <= |job.cfg.values|
    ensures First(SettingsOf(job)[..k], id) ==
            if job.node.path + job.cfg.target == id.block then Find(job.cfg.values[..k], id.key) else None
  {
    if k > 0 {
      FirstOfValues(job, k - 1, id);
      FirstSnoc(SettingsOf(job), k - 1, id);
      FindSnoc(job.cfg.values, k - 1, id.key);
    }
  }

  lemma {:induction false} FindSnoc<T>(xs: seq<(Name, T)>, k: nat, n: Name)
    requires k < |xs|
    ensures Find(xs[..k + 1], n) ==
            if Find(xs[..k], n).None? && xs[k].0 == n then Some(xs[k].1) else Find(xs[..k], n)
    decreases k
  {
    if k > 0 {
      FindSnoc(xs[1..], k - 1, n);
      assert xs[..k + 1][1..] == xs[1..][..k] && xs[..k][1..] == xs[1..][..k - 1];
    }
  }

  lemma FirstOfJob(job: Job, id: Id)
    ensures First(SettingsOf(job), id) ==
            if job.node.path <= id.block && job.cfg.target == id.block[|job.node.path|..]
            then Find(job.cfg.values, id.key) else None
  {
    var k := |job.cfg.values|;
    FirstOfValues(job, k, id);
    assert SettingsOf(job)[..k] == SettingsOf(job) && job.cfg.values[..k] == job.cfg.values;
    assert job.node.path <= id.block ==> id.block == job.node.path + id.block[|job.node.path|..];
  }

  lemma {:induction false} FirstOfNode(n: Node, k: nat, id: Id)
    requires k <= |n.sys.configs|
    ensures First(Settings(JobsIn(n, k)), id) ==
            if n.path <= id.block then EntryValue(n.sys.configs[..k], id.block[|n.path|..], id.key) else None
  {
    var jobs := JobsIn(n, k);
    if k > 0 {
      hide First, Find;
      FirstOfNode(n, k - 1, id);
      var rest := JobsIn(n, k - 1);
      assert jobs[..k - 1] == rest && n.sys.configs[..k][..k - 1] == n.sys.configs[..k - 1];
      FirstAppend(Settings(rest), SettingsOf(jobs[k - 1]), id);
      FirstOfJob(jobs[k - 1], id);
    }
  }

  lemma {:induction false} SettingsAppend(a: seq<Job>, b: seq<Job>)
    ensures Settings(a + b) == Settings(a) + Settings(b)
  {
    if b == [] {
      assert a + b == a;
    } else {
      hide SettingsOf, Settings;
      var d, j := b[..|b| - 1], b[|b| - 1];
      SettingsAppend(a, d);
      assert b == d + [j] && a + b == (a + d) + [j];
      SettingsSnoc(d, j);
      SettingsSnoc(a + d, j);
      Assoc(Settings(a), Settings(d), SettingsOf(j));
    }
  }

  lemma SettingsSnoc(jobs: seq<Job>, j: Job)
    ensures Settings(jobs + [j]) == Settings(jobs) + SettingsOf(j)
  {
    hide SettingsOf;
    assert (jobs + [j])[..|jobs|] == jobs;
  }

  lemma Assoc(a: seq<Setting>, b: seq<Setting>, c: seq<Setting>)
    ensures a + b + c == a + (b + c)
  {
  }

  /** r is what the first system in the order that mentions the configuration says. */
  ghost predicate FirstOwn(order: seq<Node>, id: Id, r: Option<Value>) {
    && (r.None? ==> forall j :: 0 <= j < |order| ==> Own(order[j], id).None?)
    && (r.Some? ==> exists j :: 0 <= j < |order| && Own(order[j], id) == r &&
                      forall i :: 0 <= i < j ==> Own(order[i], id).None?)
  }

  lemma FirstOwnStep(rest: seq<Node>, n: Node, id: Id, r: Option<Value>)
    requires FirstOwn(rest, id, r)
    ensures FirstOwn(rest + [n], id, if r.Some? then r else Own(n, id))
  {
    hide Own;
    var order := rest + [n];
    assert forall i :: 0 <= i < |rest| ==> order[i] == rest[i];
    if r.Some? {
      var j :| 0 <= j < |rest| && Own(rest[j], id) == r && forall i :: 0 <= i < j ==> Own(rest[i], id).None?;
      assert Own(order[j], id) == r && forall i :: 0 <= i < j ==> Own(order[i], id).None?;
    } else if Own(n, id).Some? {
      assert order[|rest|] == n;
    }
  }

  lemma {:induction false} FirstOfOrder(order: seq<Node>, id: Id)
    ensures FirstOwn(order, id, First(Settings(Jobs(order)), id))
  {
    if order != [] {
      hide First, Own, Settings, JobsIn, FirstOwn;
      var rest, n := order[..|order| - 1], order[|order| - 1];
      var own := JobsIn(n, |n.sys.configs|);
      FirstOfOrder(rest, id);
      SettingsAppend(Jobs(rest), own);
      FirstAppend(Settings(Jobs(rest)), Settings(own), id);
      OwnIsFirst(n, id);
      FirstOwnStep(rest, n, id, First(Settings(Jobs(rest)), id));
      assert order == rest + [n];
    }
  }

  lemma OwnIsFirst(n: Node, id: Id)
    ensures First(Settings(JobsIn(n, |n.sys.configs|)), id) == Own(n, id)
  {
    var k := |n.sys.configs|;
    FirstOfNode(n, k, id);
    assert n.sys.configs[..k] == n.sys.configs;
  }

  /** What the system d levels down the path to the block says. */
  function OwnAt(root: System, id: Id, d: nat): Option<Value>
    requires d <= |id.block|
  {
    match SubAt(root, id.block[..d])
    case None => None
    case Some(s) => Own(Node(id.block[..d], s), id)
  }

  /** The recursive descent finds the least level that says something. */
  lemma {:induction false} DescentIsLeast(root: System, id: Id, k: nat, s: System)
    requires k < |id.block| && SubAt(root, id.block[..k]) == Some(s)
    requires forall d :: 0 <= d < k ==> OwnAt(root, id, d).None?
    ensures var r := RootMost(s, id.block[k..], id.key);
            && (r.None? ==> forall d :: 0 <= d < |id.block| ==> OwnAt(root, id, d).None?)
            && (r.Some? ==> exists d :: 0 <= d < |id.block| && OwnAt(root, id, d) == r &&
                              forall c :: 0 <= c < d ==> OwnAt(root, id, c).None?)
    decreases |id.block| - k
  {
    var t := id.block;
    assert OwnAt(root, id, k) == EntryValue(s.configs, t[k..], id.key);
    if OwnAt(root, id, k).None? && k + 1 < |t| {
      assert t[..k + 1] == t[..k] + [t[k]] && t[k..][1..] == t[k + 1..];
      SubAtStep(root, t[..k], t[k]);
      var u := Find(s.subs, t[k]);
      if u.Some? {
        DescentIsLeast(root, id, k + 1, u.value);
      } else {
        forall d | k < d < |t| ensures OwnAt(root, id, d).None? {
          NothingBelow(root, t, k + 1, d);
        }
      }
    }
  }

  lemma {:induction false} NothingBelow(root: System, t: Path, k: nat, d: nat)
    requires k <= d <= |t| && SubAt(root, t[..k]).None?
    ensures SubAt(root, t[..d]).None?
    decreases d
  {
    if k < d {
      NothingBelow(root, t, k, d - 1);
      assert t[..d] == t[..d - 1] + [t[d - 1]];
      SubAtStep(root, t[..d - 1], t[d - 1]);
    }
  }

  /** All systems that mention a configuration lie on the path to its block, so the walk meets the highest one first. */
  lemma FirstIsRootMost(root: System, order: seq<Node>, id: Id)
    requires WellFormed(root) && multiset(order) == Nodes(Node([], root)) && SortedByDepth(order)
    requires TargetsResolve(root)
    ensures First(Settings(Jobs(order)), id) == RootMost(root, id.block, id.key)
  {
    hide First, EntryValue, Nodes, RootMost, Resolves;
    var r := First(Settings(Jobs(order)), id);
    FirstOfOrder(order, id);
    forall n | n in order && Own(n, id).Some?
      ensures |n.path| < |id.block| && OwnAt(root, id, |n.path|) == Own(n, id)
    {
      OrderIsTree(root, order, n);
      OwnHasTarget(root, n, id);
      assert id.block[..|n.path|] == n.path;
    }
    forall d | 0 <= d < |id.block| && OwnAt(root, id, d).Some?
      ensures exists n :: n in order && |n.path| == d && Own(n, id) == OwnAt(root, id, d)
    {
      var n := Node(id.block[..d], SubAt(root, id.block[..d]).value);
      OrderIsTree(root, order, n);
    }
    if id.block == [] {
      NoEmptyTarget(root, id.key);
    }
    LeastAgrees(root, order, id, r);
  }

  lemma NoEmptyTarget(root: System, key: Name)
    requires TargetsResolve(root)
    ensures RootMost(root, [], key).None?
  {
    hide Resolves;
    if EntryValue(root.configs, [], key).Some? {
      ValueHasEntry(root.configs, [], key);
      var c :| c in root.configs && c.target == [];
      var n := Node([], root);
      assert InTree(root, n);
      assert Resolves(root, Job(n, c));
      NonemptyTarget(root, Job(n, c));
    }
  }

  lemma OwnHasTarget(root: System, n: Node, id: Id)
    requires TargetsResolve(root) && InTree(root, n) && Own(n, id).Some?
    ensures |n.path| < |id.block|
  {
    hide Resolves;
    ValueHasEntry(n.sys.configs, id.block[|n.path|..], id.key);
    var c :| c in n.sys.configs && c.target == id.block[|n.path|..];
    assert Resolves(root, Job(n, c));
    NonemptyTarget(root, Job(n, c));
  }

  lemma NonemptyTarget(root: System, job: Job)
    requires Resolves(root, job)
    ensures job.cfg.target != []
  {
  }

  lemma {:induction false} ValueHasEntry(configs: seq<Config>, t: Path, key: Name)
    requires EntryValue(configs, t, key).Some?
    ensures exists c :: c in configs && c.target == t
  {
    var rest, c := configs[..|configs| - 1], configs[|configs| - 1];
    if EntryValue(rest, t, key).Some? {
      ValueHasEntry(rest, t, key);
      var d :| d in rest && d.target == t;
      assert d in configs;
    } else {
      assert c in configs && c.target == t;
    }
  }

  /** First in depth order and least depth are the same system. */
  lemma LeastAgrees(root: System, order: seq<Node>, id: Id, r: Option<Value>)
    requires SortedByDepth(order) && FirstOwn(order, id, r)
    requires forall n :: n in order && Own(n, id).Some? ==>
               |n.path| < |id.block| && OwnAt(root, id, |n.path|) == Own(n, id)
    requires forall d :: 0 <= d < |id.block| && OwnAt(root, id, d).Some? ==>
               exists n :: n in order && |n.path| == d && Own(n, id) == OwnAt(root, id, d)
    requires id.block == [] ==> RootMost(root, [], id.key).None?
    ensures r == RootMost(root, id.block, id.key)
  {
    hide EntryValue, Own, RootMost, OwnAt;
    var t := id.block;
    if t != [] {
      assert t[..0] == [] && t[0..] == t;
      DescentIsLeast(root, id, 0, root);
      var q := RootMost(root, t, id.key);
      if q.Some? {
        var d :| 0 <= d < |t| && OwnAt(root, id, d) == q && forall c :: 0 <= c < d ==> OwnAt(root, id, c).None?;
        var n :| n in order && |n.path| == d && Own(n, id) == q;
        var i :| 0 <= i < |order| && order[i] == n;
        var j :| 0 <= j < |order| && Own(order[j], id) == r && forall i :: 0 <= i < j ==> Own(order[i], id).None?;
        assert j <= i;
        assert order[j] in order;
      } else {
        assert forall j :: 0 <= j < |order| ==> order[j] in order;
      }
    }
  }

  /** Together: what the two passes over the breadth-first order set, and when they end early. */
  lemma PassesDecide(e: Env, order: seq<Node>)
    requires WellFormed(e.root) && multiset(order) == Nodes(Node([], e.root)) && SortedByDepth(order)
    ensures var jobs := Jobs(order);
            var p := PassJobs(e, true, PassJobs(e, false, START, jobs), jobs);
            && (!p.aborted <==> TargetsResolve(e.root) && NothingStops(e, order))
            && (Distinct(e) ==> (!p.aborted <==> Launchable(e)))
            && (!p.aborted ==> OnePerString(e, p.sets) && (HighestWins(e, p.sets) <==> Distinct(e)))
  {
    hide First, RootMost, Resolves, PassAll, Resolved, Nodes, Jobs, Settings, PassJobs, Blocks, Exact, HighestWins;
    hide Launchable, TargetsResolve, Wanted, Distinct, DistinctIn, OnePerString, CfgFqn, Mentioned, Stops;
    var jobs := Jobs(order);
    var p1 := PassJobs(e, false, START, jobs);
    PassEntries(e, false, START, jobs);
    PassEntries(e, true, p1, jobs);
    AllResolve(e.root, order);
    if TargetsResolve(e.root) {
      BothPasses(e, Settings(jobs));
      forall id ensures First(Settings(jobs), id) == Wanted(e, id) {
        WantedIsFirst(e, order, id);
      }
      DistinctIsWanted(e, Settings(jobs));
      BlocksLaunch(e, Settings(jobs));
      if Distinct(e) {
        StopsAreBlocks(e, Settings(jobs));
      }
      var p := PassJobs(e, true, p1, jobs);
      if !p.aborted {
        ExactIsWanted(e, Settings(jobs), p);
        AllSetIfDistinct(e, p.sets);
      }
    } else {
      NotLaunchable(e);
    }
  }

  /** No setting met on the walk ends the launch. */
  ghost predicate NothingStops(e: Env, order: seq<Node>) {
    var ss := Settings(Jobs(order));
    !exists i :: 0 <= i < |ss| && Stops(e, ss, i)
  }

  lemma WantedIsFirst(e: Env, order: seq<Node>, id: Id)
    requires WellFormed(e.root) && multiset(order) == Nodes(Node([], e.root)) && SortedByDepth(order)
    requires TargetsResolve(e.root)
    ensures First(Settings(Jobs(order)), id) == Wanted(e, id)
  {
    hide First, Nodes, RootMost, TargetsResolve, Jobs, Settings;
    FirstIsRootMost(e.root, order, id);
  }

  lemma DistinctIsWanted(e: Env, ss: seq<Setting>)
    requires forall id :: First(ss, id) == Wanted(e, id)
    ensures Distinct(e) <==> DistinctIn(ss)
  {
    hide First, Wanted, CfgFqn;
    forall id ensures Wanted(e, id).Some? <==> exists i :: 0 <= i < |ss| && ss[i].id == id {
      FirstIsMentioned(ss, id);
    }
    forall i | 0 <= i < |ss| ensures Wanted(e, ss[i].id).Some? {
    }
    if DistinctIn(ss) {
      forall a, b | Wanted(e, a).Some? && Wanted(e, b).Some? && CfgFqn(a) == CfgFqn(b)
        ensures a == b
      {
        var i :| 0 <= i < |ss| && ss[i].id == a;
        var j :| 0 <= j < |ss| && ss[j].id == b;
      }
    }
  }

  lemma NotLaunchable(e: Env)
    requires !TargetsResolve(e.root)
    ensures !Launchable(e)
  {
    hide TargetsResolve;
  }

  lemma BlocksLaunch(e: Env, ss: seq<Setting>)
    requires TargetsResolve(e.root) && forall id :: First(ss, id) == Wanted(e, id)
    ensures Launchable(e) <==> !exists id :: Blocks(e, ss, id)
  {
    hide First, Wanted, TargetsResolve, Resolved;
    if !exists id :: Blocks(e, ss, id) {
      forall id | Wanted(e, id).Some?
        ensures (id in e.before || id in e.after) && Resolved(e, Wanted(e, id).value).Some?
      {
        assert !Blocks(e, ss, id) && First(ss, id) == Wanted(e, id);
      }
    }
  }

  lemma ExactIsWanted(e: Env, ss: seq<Setting>, p: Progress)
    requires forall id :: First(ss, id) == Wanted(e, id)
    requires Exact(e, ss, p) && forall x :: x in p.configured <==> Mentioned(ss, |ss|, x)
    ensures OnePerString(e, p.sets)
  {
    hide First, Wanted, CfgFqn, Mentioned, Resolved;
    StringsAreSet(e, ss, p);
    ValuesAreWanted(e, ss, p.sets);
  }

  lemma StringsAreSet(e: Env, ss: seq<Setting>, p: Progress)
    requires forall id :: First(ss, id) == Wanted(e, id)
    requires forall x :: x in p.configured <==> Mentioned(ss, |ss|, x)
    requires forall x :: x in p.configured ==> exists i :: 0 <= i < |p.sets| && CfgFqn(p.sets[i].id) == x
    ensures forall id :: Wanted(e, id).Some? ==> exists i :: 0 <= i < |p.sets| && CfgFqn(p.sets[i].id) == CfgFqn(id)
  {
    hide First, Wanted, CfgFqn, Mentioned;
    forall id | Wanted(e, id).Some?
      ensures exists i :: 0 <= i < |p.sets| && CfgFqn(p.sets[i].id) == CfgFqn(id)
    {
      assert First(ss, id) == Wanted(e, id);
      WantedIsMentioned(e, ss, id);
      assert CfgFqn(id) in p.configured;
    }
  }

  lemma ValuesAreWanted(e: Env, ss: seq<Setting>, sets: seq<Assigned>)
    requires forall id :: First(ss, id) == Wanted(e, id)
    requires forall i :: 0 <= i < |sets| ==>
               First(ss, sets[i].id).Some? && Resolved(e, First(ss, sets[i].id).value) == Some(sets[i].v)
    ensures forall i :: 0 <= i < |sets| ==>
              Wanted(e, sets[i].id).Some? && Resolved(e, Wanted(e, sets[i].id).value) == Some(sets[i].v)
  {
    hide First, Wanted, Resolved;
    forall i | 0 <= i < |sets|
      ensures Wanted(e, sets[i].id).Some? && Resolved(e, Wanted(e, sets[i].id).value) == Some(sets[i].v)
    {
      assert First(ss, sets[i].id) == Wanted(e, sets[i].id);
    }
  }

  lemma WantedIsMentioned(e: Env, ss: seq<Setting>, id: Id)
    requires First(ss, id) == Wanted(e, id) && Wanted(e, id).Some?
    ensures Mentioned(ss, |ss|, CfgFqn(id))
  {
    hide First, Wanted, CfgFqn;
    FirstIsMentioned(ss, id);
  }

  /** With one call for each string, every item is set if and only if no two share their string. */
  lemma AllSetIfDistinct(e: Env, sets: seq<Assigned>)
    requires OnePerString(e, sets)
    ensures HighestWins(e, sets) <==> Distinct(e)
  {
    hide Wanted, Resolved, CfgFqn;
    if Distinct(e) {
      forall id | Wanted(e, id).Some?
        ensures exists i :: 0 <= i < |sets| && sets[i].id == id
      {
        var i :| 0 <= i < |sets| && CfgFqn(sets[i].id) == CfgFqn(id);
        assert sets[i].id == id;
      }
    }
    if HighestWins(e, sets) {
      forall a, b | Wanted(e, a).Some? && Wanted(e, b).Some? && CfgFqn(a) == CfgFqn(b)
        ensures a == b
      {
        var i :| 0 <= i < |sets| && sets[i].id == a;
        var j :| 0 <= j < |sets| && sets[j].id == b;
        assert i == j;
      }
    }
  }

  /** Two blocks, one with a dot in its name: a launch that succeeds where `HighestWins` cannot hold. */
  lemma DottedNamesSkipOne()
    ensures var a, b := Id(["a"], "b.c"), Id(["a.b"], "c");
            var x, y := Config(["a"], [("b.c", Plain(1))]), Config(["a.b"], [("c", Plain(2))]);
            var n := Node([], System(["a", "a.b"], [x, y], [], []));
            var e := Env(n.sys, map[], {a, b}, {a, b});
            && Jobs([n]) == [Job(n, x), Job(n, y)]
            && Settings(Jobs([n])) == [Setting(a, Plain(1)), Setting(b, Plain(2))]
            && PassAll(e, true, PassAll(e, false, START, Settings(Jobs([n]))), Settings(Jobs([n]))).sets ==
               [Assigned(a, 1)]
  {
    var a, b := Id(["a"], "b.c"), Id(["a.b"], "c");
    var x, y := Config(["a"], [("b.c", Plain(1))]), Config(["a.b"], [("c", Plain(2))]);
    var n := Node([], System(["a", "a.b"], [x, y], [], []));
    var e := Env(n.sys, map[], {a, b}, {a, b});
    var s, r := Setting(a, Plain(1)), Setting(b, Plain(2));
    DottedNamesCollide();
    assert [n][..0] == [] && Jobs([n]) == [Job(n, x), Job(n, y)];
    assert [] + ["a"] == ["a"] && [] + ["a.b"] == ["a.b"];
    assert SettingsOf(Job(n, x)) == [s] && SettingsOf(Job(n, y)) == [r];
    TwoSettings(Job(n, x), Job(n, y), s, r);
    TwoPasses(e, s, r);
  }

  /** Plain names of systems and blocks are enough for the highest level to win everywhere. */
  lemma PlainNamesAreDistinct(e: Env)
    requires forall id :: Wanted(e, id).Some? ==> PlainNames(id.block)
    ensures Distinct(e)
  {
    hide Wanted, CfgFqn, PlainNames;
    forall a, b | Wanted(e, a).Some? && Wanted(e, b).Some? && CfgFqn(a) == CfgFqn(b)
      ensures a == b
    {
      CfgFqnInjective(a, b);
    }
  }

  lemma TwoSettings(j: Job, k: Job, s: Setting, r: Setting)
    requires SettingsOf(j) == [s] && SettingsOf(k) == [r]
    ensures Settings([j, k]) == [s, r]
  {
    hide SettingsOf;
    assert [j, k][..1] == [j] && [j][..0] == [];
    assert Settings([j]) == [s];
  }

  lemma TwoPasses(e: Env, s: Setting, r: Setting)
    requires s.id in e.before && r.id in e.before && CfgFqn(s.id) == CfgFqn(r.id) && Resolved(e, s.val).Some?
    ensures PassAll(e, true, PassAll(e, false, START, [s, r]), [s, r]).sets ==
            [Assigned(s.id, Resolved(e, s.val).value)]
  {
    hide CfgFqn, Resolved;
    assert [s, r][..1] == [s] && [s][..0] == [];
    var p := PassAll(e, false, START, [s, r]);
    var q := ApplyVal(e, START, s);
    assert q.configured == {CfgFqn(s.id)} && PassAll(e, false, START, [s]) == q;
    assert p == Apply(e, q, r) == q;
    assert PassAll(e, true, p, [s]) == p;
  }

  lemma AllResolve(root: System, order: seq<Node>)
    requires WellFormed(root) && multiset(order) == Nodes(Node([], root))
    ensures TargetsResolve(root) <==> forall job :: job in Jobs(order) ==> Resolves(root, job)
  {
    hide Resolves, Jobs, Nodes;
    forall job ensures job in Jobs(order) <==> InTree(root, job.node) && job.cfg in job.node.sys.configs {
      JobsOfOrder(order, job);
      OrderIsTree(root, order, job.node);
    }
    if forall job :: job in Jobs(order) ==> Resolves(root, job) {
      forall n, c | InTree(root, n) && c in n.sys.configs
        ensures Resolves(root, Job(n, c))
      {
        assert Job(n, c) in Jobs(order);
      }
    }
  }
}
