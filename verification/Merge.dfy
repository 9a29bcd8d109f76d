/** Merging one system into another: a union of tables that is biased to one side. */
module Merge {
  import opened Common
  import opened Composition

  type Values = map<Name, Value>

  /** The tables of a system. Connections are keyed by their two ends, either of which may be missing. */
  datatype Tables = Tables(
    imports: seq<string>,
    blocks: seq<(Name, string)>,
    configs: seq<(Name, Values)>,
    conns: seq<((Option<string>, Option<string>), string)>,
    nodecfgs: map<Name, int>,
    subs: map<Name, System>)

  // Lists with keys

  function FirstOf<K(==), V>(xs: seq<(K, V)>, k: K): Option<V> {
    if xs == [] then None else if xs[0].0 == k then Some(xs[0].1) else FirstOf(xs[1..], k)
  }

  function LastOf<K(==), V>(xs: seq<(K, V)>, k: K): Option<V> {
    if xs == [] then None
    else if xs[|xs| - 1].0 == k then Some(xs[|xs| - 1].1) else LastOf(xs[..|xs| - 1], k)
  }

  function Or<V>(x: Option<V>, y: Option<V>): Option<V> {
    if x.Some? then x else y
  }

  ghost predicate Unique<K, V>(xs: seq<(K, V)>) {
    forall i, j :: 0 <= i < j < |xs| ==> xs[i].0 != xs[j].0
  }

  /** The position of the first entry with the key, or the length. */
  function Index<K(==), V>(xs: seq<(K, V)>, k: K): (i: nat)
    ensures i <= |xs| && (i < |xs| ==> xs[i].0 == k) && forall j :: 0 <= j < i ==> xs[j].0 != k
  {
    if xs == [] || xs[0].0 == k then 0 else 1 + Index(xs[1..], k)
  }

  lemma {:induction false} FirstAtIndex<K, V>(xs: seq<(K, V)>, k: K)
    ensures FirstOf(xs, k) == if Index(xs, k) < |xs| then Some(xs[Index(xs, k)].1) else None
  {
    if xs != [] && xs[0].0 != k {
      FirstAtIndex(xs[1..], k);
    }
  }

  function MergeOne<K(==), V>(xs: seq<(K, V)>, x: (K, V), override: bool): seq<(K, V)> {
    var i := Index(xs, x.0);
    if i == |xs| then xs + [x] else if override then xs[i := x] else xs
  }

  function MergeList<K(==), V>(xs: seq<(K, V)>, ys: seq<(K, V)>, override: bool): seq<(K, V)> {
    if ys == [] then xs else MergeOne(MergeList(xs, ys[..|ys| - 1], override), ys[|ys| - 1], override)
  }

  lemma {:induction false} FirstAfterUpdate<K, V>(xs: seq<(K, V)>, i: nat, x: (K, V), k: K)
    requires i < |xs| && xs[i].0 == x.0 && forall j :: 0 <= j < i ==> xs[j].0 != x.0
    ensures FirstOf(xs[i := x], k) == if k == x.0 then Some(x.1) else FirstOf(xs, k)
  {
    if i > 0 {
      assert xs[i := x][1..] == xs[1..][i - 1 := x];
      FirstAfterUpdate(xs[1..], i - 1, x, k);
    }
  }

  lemma {:induction false} FirstAppended<K, V>(xs: seq<(K, V)>, x: (K, V), k: K)
    ensures FirstOf(xs + [x], k) == Or(FirstOf(xs, k), if k == x.0 then Some(x.1) else None)
  {
    if xs != [] {
      assert (xs + [x])[1..] == xs[1..] + [x];
      FirstAppended(xs[1..], x, k);
    } else {
      assert xs + [x] == [x];
    }
  }

  lemma FirstMergeOne<K, V>(xs: seq<(K, V)>, x: (K, V), override: bool, k: K)
    ensures FirstOf(MergeOne(xs, x, override), k) ==
            if k != x.0 then FirstOf(xs, k)
            else if override then Some(x.1) else Or(FirstOf(xs, k), Some(x.1))
  {
    var i := Index(xs, x.0);
    FirstAtIndex(xs, x.0);
    if i == |xs| {
      FirstAppended(xs, x, k);
    } else if override {
      FirstAfterUpdate(xs, i, x, k);
    }
  }

  /** What a merged list answers: the last entry of an overriding list, the first one of a weak list. */
  lemma {:induction false} MergeLookup<K, V>(xs: seq<(K, V)>, ys: seq<(K, V)>, k: K)
    ensures FirstOf(MergeList(xs, ys, true), k) == Or(LastOf(ys, k), FirstOf(xs, k))
    ensures FirstOf(MergeList(xs, ys, false), k) == Or(FirstOf(xs, k), FirstOf(ys, k))
  {
    if ys != [] {
      var rest, y := ys[..|ys| - 1], ys[|ys| - 1];
      MergeLookup(xs, rest, k);
      FirstMergeOne(MergeList(xs, rest, true), y, true, k);
      FirstMergeOne(MergeList(xs, rest, false), y, false, k);
      FirstAppended(rest, y, k);
      assert ys == rest + [y];
    }
  }

  /** Overriding xs by ys and weakly adding xs to ys answer alike exactly where ys' first and last entry agree. */
  lemma MergeDual<K, V>(xs: seq<(K, V)>, ys: seq<(K, V)>, k: K)
    ensures FirstOf(MergeList(xs, ys, true), k) == FirstOf(MergeList(ys, xs, false), k) <==>
            FirstOf(ys, k) == LastOf(ys, k)
  {
    hide MergeList, FirstOf, LastOf;
    MergeLookup(xs, ys, k);
    MergeLookup(ys, xs, k);
    FirstAndLast(ys, k);
  }

  lemma {:induction false} FirstAndLast<K, V>(xs: seq<(K, V)>, k: K)
    ensures FirstOf(xs, k).Some? <==> LastOf(xs, k).Some?
    ensures Unique(xs) ==> FirstOf(xs, k) == LastOf(xs, k)
  {
    if xs != [] {
      var rest, x := xs[..|xs| - 1], xs[|xs| - 1];
      FirstAndLast(rest, k);
      FirstAppended(rest, x, k);
      FirstAtIndex(rest, k);
      assert xs == rest + [x];
    }
  }

  lemma {:induction false} MergeUnique<K, V>(xs: seq<(K, V)>, ys: seq<(K, V)>, override: bool)
    requires Unique(xs)
    ensures Unique(MergeList(xs, ys, override))
  {
    if ys != [] {
      MergeUnique(xs, ys[..|ys| - 1], override);
    }
  }

  /** Merging the same list again changes no answer. */
  lemma MergeAgain<K, V>(xs: seq<(K, V)>, ys: seq<(K, V)>, override: bool, k: K)
    ensures FirstOf(MergeList(MergeList(xs, ys, override), ys, override), k) == FirstOf(MergeList(xs, ys, override), k)
  {
    MergeLookup(xs, ys, k);
    MergeLookup(MergeList(xs, ys, override), ys, k);
  }

  // Configurations, which are merged key by key

  /** A union of tables in which one side's values win. */
  function MergeMap<V>(a: map<Name, V>, b: map<Name, V>, override: bool): map<Name, V> {
    if override then a + b else b + a
  }

  function MergeConfig(cs: seq<(Name, Values)>, x: (Name, Values), override: bool): seq<(Name, Values)> {
    var i := Index(cs, x.0);
    if i == |cs| then cs + [x] else cs[i := (x.0, MergeMap(cs[i].1, x.1, override))]
  }

  function MergeConfigs(cs: seq<(Name, Values)>, ds: seq<(Name, Values)>, override: bool): seq<(Name, Values)> {
    if ds == [] then cs else MergeConfig(MergeConfigs(cs, ds[..|ds| - 1], override), ds[|ds| - 1], override)
  }

  function Get(m: Option<Values>, key: Name): Option<Value> {
    if m.Some? && key in m.value then Some(m.value[key]) else None
  }

  /** What the first entry of a block says, the one that is merged into. */
  function Lookup(cs: seq<(Name, Values)>, name: Name, key: Name): Option<Value> {
    Get(FirstOf(cs, name), key)
  }

  /** The first value that a list gives to a key of a block, which a launch takes, and the last. */
  function FirstValue(ds: seq<(Name, Values)>, name: Name, key: Name): Option<Value> {
    if ds == [] then None
    else
      var d := ds[|ds| - 1];
      Or(FirstValue(ds[..|ds| - 1], name, key), if d.0 == name then Get(Some(d.1), key) else None)
  }

  function LastValue(ds: seq<(Name, Values)>, name: Name, key: Name): Option<Value> {
    if ds == [] then None
    else
      var d := ds[|ds| - 1];
      Or(if d.0 == name then Get(Some(d.1), key) else None, LastValue(ds[..|ds| - 1], name, key))
  }

  lemma LookupMergeConfig(cs: seq<(Name, Values)>, x: (Name, Values), override: bool, name: Name, key: Name)
    ensures Lookup(MergeConfig(cs, x, override), name, key) ==
            var add := if x.0 == name then Get(Some(x.1), key) else None;
            var was := Lookup(cs, name, key);
            if override then Or(add, was) else Or(was, add)
  {
    var i := Index(cs, x.0);
    FirstAtIndex(cs, x.0);
    if i == |cs| {
      FirstAppended(cs, x, name);
    } else {
      FirstAfterUpdate(cs, i, (x.0, MergeMap(cs[i].1, x.1, override)), name);
    }
  }

  /** The first entry of a block, into which others are merged, answers like a biased union. */
  lemma {:induction false} MergeConfigsLookup(cs: seq<(Name, Values)>, ds: seq<(Name, Values)>, name: Name, key: Name)
    ensures Lookup(MergeConfigs(cs, ds, true), name, key) == Or(LastValue(ds, name, key), Lookup(cs, name, key))
    ensures Lookup(MergeConfigs(cs, ds, false), name, key) == Or(Lookup(cs, name, key), FirstValue(ds, name, key))
  {
    if ds != [] {
      var rest, d := ds[..|ds| - 1], ds[|ds| - 1];
      MergeConfigsLookup(cs, rest, name, key);
      LookupMergeConfig(MergeConfigs(cs, rest, true), d, true, name, key);
      LookupMergeConfig(MergeConfigs(cs, rest, false), d, false, name, key);
    }
  }

  lemma {:induction false} UniqueValues(ds: seq<(Name, Values)>, name: Name, key: Name)
    requires Unique(ds)
    ensures FirstValue(ds, name, key) == LastValue(ds, name, key) == Lookup(ds, name, key)
  {
    if ds != [] {
      var rest, d := ds[..|ds| - 1], ds[|ds| - 1];
      UniqueValues(rest, name, key);
      FirstAppended(rest, d, name);
      FirstAtIndex(rest, name);
      NoValue(rest, name, key);
      assert ds == rest + [d];
    }
  }

  lemma {:induction false} NoValue(ds: seq<(Name, Values)>, name: Name, key: Name)
    ensures FirstOf(ds, name).None? ==> FirstValue(ds, name, key).None? && LastValue(ds, name, key).None?
  {
    if ds != [] {
      var rest, d := ds[..|ds| - 1], ds[|ds| - 1];
      NoValue(rest, name, key);
      FirstAppended(rest, d, name);
      assert ds == rest + [d];
    }
  }

  lemma {:induction false} FirstValueAppended(cs: seq<(Name, Values)>, x: (Name, Values), name: Name, key: Name)
    ensures FirstValue(cs + [x], name, key) ==
            Or(FirstValue(cs, name, key), if x.0 == name then Get(Some(x.1), key) else None)
  {
    assert (cs + [x])[..|cs|] == cs;
  }

  /** Values of a list in front come first. */
  lemma {:induction false} FirstValueConcat(a: seq<(Name, Values)>, b: seq<(Name, Values)>, name: Name, key: Name)
    ensures FirstValue(a + b, name, key) == Or(FirstValue(a, name, key), FirstValue(b, name, key))
  {
    if b == [] {
      assert a + b == a;
    } else {
      var c, x := b[..|b| - 1], b[|b| - 1];
      FirstValueConcat(a, c, name, key);
      FirstValueAppended(a + c, x, name, key);
      assert a + b == a + c + [x];
    }
  }

  lemma {:induction false} NothingBefore(cs: seq<(Name, Values)>, name: Name, key: Name)
    requires forall j :: 0 <= j < |cs| ==> cs[j].0 != name
    ensures FirstValue(cs, name, key).None?
  {
    if cs != [] {
      NothingBefore(cs[..|cs| - 1], name, key);
    }
  }

  /** The first value of a block's key, from its first entry and what comes behind. */
  lemma FirstValueAt(cs: seq<(Name, Values)>, i: nat, name: Name, key: Name)
    requires i < |cs| && cs[i].0 == name && forall j :: 0 <= j < i ==> cs[j].0 != name
    ensures FirstValue(cs, name, key) == Or(Get(Some(cs[i].1), key), FirstValue(cs[i + 1..], name, key))
  {
    hide Get;
    assert cs == cs[..i] + ([cs[i]] + cs[i + 1..]);
    FirstValueConcat(cs[..i], [cs[i]] + cs[i + 1..], name, key);
    FirstValueConcat([cs[i]], cs[i + 1..], name, key);
    NothingBefore(cs[..i], name, key);
    FirstValueAppended([], cs[i], name, key);
    assert [] + [cs[i]] == [cs[i]];
  }

  /** One entry merged: it overrides all of the block's entries, or is second to the first of them only. */
  lemma FirstValueMergeConfig(
      cs: seq<(Name, Values)>, x: (Name, Values), override: bool, name: Name, key: Name)
    ensures var add := if x.0 == name then Get(Some(x.1), key) else None;
            var was := FirstValue(cs, name, key);
            FirstValue(MergeConfig(cs, x, override), name, key) ==
            if override then Or(add, was) else Or(Lookup(cs, name, key), Or(add, was))
  {
    var i := Index(cs, x.0);
    LookupIsFirst(cs, name, key);
    if i == |cs| {
      FirstAtIndex(cs, x.0);
      FirstValueAppended(cs, x, name, key);
      if x.0 == name {
        NothingBefore(cs, name, key);
      }
    } else {
      MergeConfigAt(cs, x, override, i, name, key);
    }
  }

  lemma LookupIsFirst(cs: seq<(Name, Values)>, name: Name, key: Name)
    ensures Lookup(cs, name, key).Some? ==> FirstValue(cs, name, key) == Lookup(cs, name, key)
  {
    FirstAtIndex(cs, name);
    var i := Index(cs, name);
    if i < |cs| {
      FirstValueAt(cs, i, name, key);
    }
  }

  lemma MergeConfigAt(
      cs: seq<(Name, Values)>, x: (Name, Values), override: bool, i: nat, name: Name, key: Name)
    requires i == Index(cs, x.0) && i < |cs|
    ensures var add := if x.0 == name then Get(Some(x.1), key) else None;
            var was := FirstValue(cs, name, key);
            FirstValue(MergeConfig(cs, x, override), name, key) ==
            if override then Or(add, was) else Or(Lookup(cs, name, key), Or(add, was))
  {
    var now := MergeConfig(cs, x, override);
    LookupIsFirst(cs, name, key);
    if x.0 == name {
      FirstAtIndex(cs, name);
      FirstValueAt(cs, i, name, key);
      FirstValueAt(now, i, name, key);
      assert now[i + 1..] == cs[i + 1..];
    } else {
      OthersKept(cs, now, i, name, key);
    }
  }

  /** An entry of another block does not matter. */
  lemma OthersKept(cs: seq<(Name, Values)>, now: seq<(Name, Values)>, i: nat, name: Name, key: Name)
    requires i < |cs| == |now| && now == cs[i := now[i]] && cs[i].0 == now[i].0 != name
    ensures FirstValue(now, name, key) == FirstValue(cs, name, key)
  {
    assert cs == cs[..i] + [cs[i]] + cs[i + 1..] && now == cs[..i] + [now[i]] + cs[i + 1..];
    FirstValueConcat(cs[..i] + [cs[i]], cs[i + 1..], name, key);
    FirstValueConcat(cs[..i] + [now[i]], cs[i + 1..], name, key);
    FirstValueAppended(cs[..i], cs[i], name, key);
    FirstValueAppended(cs[..i], now[i], name, key);
  }

  /** What a launch finds after merging ds into cs, for any lists, with any number of entries for a block. */
  lemma {:induction false} MergeConfigsValue(cs: seq<(Name, Values)>, ds: seq<(Name, Values)>, name: Name, key: Name)
    ensures FirstValue(MergeConfigs(cs, ds, true), name, key) ==
            Or(LastValue(ds, name, key), FirstValue(cs, name, key))
    ensures FirstValue(MergeConfigs(cs, ds, false), name, key) ==
            Or(Lookup(cs, name, key), Or(FirstValue(ds, name, key), FirstValue(cs, name, key)))
  {
    LookupIsFirst(cs, name, key);
    if ds != [] {
      hide FirstOf, MergeConfig, Lookup, Get;
      var rest, d := ds[..|ds| - 1], ds[|ds| - 1];
      MergeConfigsValue(cs, rest, name, key);
      MergeConfigsLookup(cs, rest, name, key);
      FirstValueMergeConfig(MergeConfigs(cs, rest, true), d, true, name, key);
      FirstValueMergeConfig(MergeConfigs(cs, rest, false), d, false, name, key);
    }
  }

  /** A weak merge leaves a value that was there alone, exactly if the block's first entry has it or none differs. */
  lemma WeakIsWeak(cs: seq<(Name, Values)>, ds: seq<(Name, Values)>, name: Name, key: Name)
    ensures var c, d := FirstValue(cs, name, key), FirstValue(ds, name, key);
            FirstValue(MergeConfigs(cs, ds, false), name, key) == Or(c, d) <==>
            c.None? || d.None? || c == d || Lookup(cs, name, key).Some?
  {
    hide FirstValue, Lookup, MergeConfigs;
    MergeConfigsValue(cs, ds, name, key);
    LookupIsFirst(cs, name, key);
  }

  /** When overriding cs by ds and weakly adding cs to ds find the same value. */
  lemma MergeConfigsDual(cs: seq<(Name, Values)>, ds: seq<(Name, Values)>, name: Name, key: Name)
    ensures var c, d, last := FirstValue(cs, name, key), FirstValue(ds, name, key), LastValue(ds, name, key);
            FirstValue(MergeConfigs(cs, ds, true), name, key) == FirstValue(MergeConfigs(ds, cs, false), name, key) <==>
            last.None? || last == if Lookup(ds, name, key).Some? || c.None? then d else c
  {
    hide FirstValue, LastValue, Lookup, MergeConfigs;
    MergeConfigsValue(cs, ds, name, key);
    MergeConfigsValue(ds, cs, name, key);
    LookupIsFirst(ds, name, key);
    FirstAndLastValue(ds, name, key);
  }

  lemma {:induction false} FirstAndLastValue(ds: seq<(Name, Values)>, name: Name, key: Name)
    ensures FirstValue(ds, name, key).Some? <==> LastValue(ds, name, key).Some?
  {
    if ds != [] {
      FirstAndLastValue(ds[..|ds| - 1], name, key);
    }
  }

  /** Repeating a merge changes no value, whatever the lists. */
  lemma MergeConfigsAgain(cs: seq<(Name, Values)>, ds: seq<(Name, Values)>, override: bool, name: Name, key: Name)
    ensures var once := MergeConfigs(cs, ds, override);
            FirstValue(MergeConfigs(once, ds, override), name, key) == FirstValue(once, name, key)
  {
    hide FirstValue, LastValue, Lookup, MergeConfigs;
    MergeConfigsValue(cs, ds, name, key);
    MergeConfigsLookup(cs, ds, name, key);
    MergeConfigsValue(MergeConfigs(cs, ds, override), ds, name, key);
  }

  /** With two entries for a block in the parent, a weak merge can let the subsystem win. */
  lemma SecondEntryLoses()
    ensures var cs: seq<(Name, Values)> := [("b", map["p" := Plain(1)]), ("b", map["k" := Plain(2)])];
            var ds: seq<(Name, Values)> := [("b", map["k" := Plain(3)])];
            && FirstValue(cs, "b", "k") == Some(Plain(2))
            && FirstValue(MergeConfigs(cs, ds, false), "b", "k") == Some(Plain(3))
  {
    var cs: seq<(Name, Values)> := [("b", map["p" := Plain(1)]), ("b", map["k" := Plain(2)])];
    var ds: seq<(Name, Values)> := [("b", map["k" := Plain(3)])];
    MergeConfigsValue(cs, ds, "b", "k");
    hide MergeConfigs;
    assert cs[..1] == [cs[0]] && [cs[0]][..0] == [] && ds[..0] == [];
    assert FirstValue([cs[0]], "b", "k") == None;
  }

  lemma {:induction false} ConfigsUnique(cs: seq<(Name, Values)>, ds: seq<(Name, Values)>, override: bool)
    requires Unique(cs)
    ensures Unique(MergeConfigs(cs, ds, override))
  {
    if ds != [] {
      ConfigsUnique(cs, ds[..|ds| - 1], override);
    }
  }

  // Whole systems

  function MergeTables(a: Tables, b: Tables, override: bool): Tables {
    Tables(a.imports + b.imports,
           MergeList(a.blocks, b.blocks, override),
           MergeConfigs(a.configs, b.configs, override),
           MergeList(a.conns, b.conns, override),
           MergeMap(a.nodecfgs, b.nodecfgs, override),
           MergeMap(a.subs, b.subs, override))
  }

  ghost predicate UniqueNames(t: Tables) {
    Unique(t.blocks) && Unique(t.configs) && Unique(t.conns)
  }

  /** Two systems that answer all look-ups alike. */
  ghost predicate SameAnswers(a: Tables, b: Tables) {
    && (forall n :: FirstOf(a.blocks, n) == FirstOf(b.blocks, n))
    && (forall n, k :: FirstValue(a.configs, n, k) == FirstValue(b.configs, n, k))
    && (forall c :: FirstOf(a.conns, c) == FirstOf(b.conns, c))
    && a.nodecfgs == b.nodecfgs && a.subs == b.subs
  }

  /** Merging keeps names unique; overriding mirrors weak merging; and a repeated merge changes no answer. */
  lemma MergeLaws(a: Tables, b: Tables, override: bool)
    requires UniqueNames(a) && UniqueNames(b)
    ensures UniqueNames(MergeTables(a, b, override))
    ensures SameAnswers(MergeTables(a, b, true), MergeTables(b, a, false))
    ensures SameAnswers(MergeTables(MergeTables(a, b, override), b, override), MergeTables(a, b, override))
  {
    hide FirstOf, FirstValue, MergeList, MergeConfigs;
    MergeUnique(a.blocks, b.blocks, override);
    MergeUnique(a.conns, b.conns, override);
    ConfigsUnique(a.configs, b.configs, override);
    forall n
      ensures FirstOf(MergeList(a.blocks, b.blocks, true), n) == FirstOf(MergeList(b.blocks, a.blocks, false), n)
      ensures FirstOf(MergeList(MergeList(a.blocks, b.blocks, override), b.blocks, override), n) ==
              FirstOf(MergeList(a.blocks, b.blocks, override), n)
    {
      ListLaws(a.blocks, b.blocks, override, n);
    }
    forall n
      ensures FirstOf(MergeList(a.conns, b.conns, true), n) == FirstOf(MergeList(b.conns, a.conns, false), n)
      ensures FirstOf(MergeList(MergeList(a.conns, b.conns, override), b.conns, override), n) ==
              FirstOf(MergeList(a.conns, b.conns, override), n)
    {
      ListLaws(a.conns, b.conns, override, n);
    }
    forall n, k
      ensures FirstValue(MergeConfigs(a.configs, b.configs, true), n, k) ==
              FirstValue(MergeConfigs(b.configs, a.configs, false), n, k)
      ensures FirstValue(MergeConfigs(MergeConfigs(a.configs, b.configs, override), b.configs, override), n, k) ==
              FirstValue(MergeConfigs(a.configs, b.configs, override), n, k)
    {
      ConfigLaws(a.configs, b.configs, override, n, k);
    }
  }

  /** Every import of both systems is kept, in order, the target's first. */
  lemma ImportsKept(a: Tables, b: Tables, override: bool, i: nat)
    requires i < |a.imports| + |b.imports|
    ensures var now := MergeTables(a, b, override).imports;
            && |now| == |a.imports| + |b.imports|
            && now[i] == if i < |a.imports| then a.imports[i] else b.imports[i - |a.imports|]
  {
    hide MergeList, MergeConfigs, MergeMap;
  }

  lemma ListLaws<K, V>(xs: seq<(K, V)>, ys: seq<(K, V)>, override: bool, k: K)
    requires Unique(ys)
    ensures FirstOf(MergeList(xs, ys, true), k) == FirstOf(MergeList(ys, xs, false), k)
    ensures FirstOf(MergeList(MergeList(xs, ys, override), ys, override), k) == FirstOf(MergeList(xs, ys, override), k)
  {
    hide MergeList, FirstOf, LastOf;
    MergeLookup(xs, ys, k);
    MergeLookup(ys, xs, k);
    FirstAndLast(ys, k);
    MergeAgain(xs, ys, override, k);
  }

  lemma ConfigLaws(cs: seq<(Name, Values)>, ds: seq<(Name, Values)>, override: bool, n: Name, k: Name)
    requires Unique(ds)
    ensures FirstValue(MergeConfigs(cs, ds, true), n, k) == FirstValue(MergeConfigs(ds, cs, false), n, k)
    ensures FirstValue(MergeConfigs(MergeConfigs(cs, ds, override), ds, override), n, k) ==
            FirstValue(MergeConfigs(cs, ds, override), n, k)
  {
    hide MergeConfigs, Lookup, FirstValue, LastValue;
    MergeConfigsDual(cs, ds, n, k);
    MergeConfigsAgain(cs, ds, override, n, k);
    UniqueValues(ds, n, k);
  }

  /** The weak merge of a list of unnamed subsystems, in order. */
  function MergeUnnamed(a: Tables, subs: seq<Tables>): Tables {
    if subs == [] then a else MergeTables(MergeUnnamed(a, subs[..|subs| - 1]), subs[|subs| - 1], false)
  }

  /** The block that the first subsystem in list order to have one of that name contributes. */
  function FirstBlock(subs: seq<Tables>, n: Name): Option<string> {
    if subs == [] then None else Or(FirstBlock(subs[..|subs| - 1], n), FirstOf(subs[|subs| - 1].blocks, n))
  }

  function FirstConfig(subs: seq<Tables>, n: Name, k: Name): Option<Value> {
    if subs == [] then None
    else Or(FirstConfig(subs[..|subs| - 1], n, k), FirstValue(subs[|subs| - 1].configs, n, k))
  }

  function FirstConn(subs: seq<Tables>, c: (Option<string>, Option<string>)): Option<string> {
    if subs == [] then None else Or(FirstConn(subs[..|subs| - 1], c), FirstOf(subs[|subs| - 1].conns, c))
  }

  function At<V>(m: map<Name, V>, n: Name): Option<V> {
    if n in m then Some(m[n]) else None
  }

  function FirstNodecfg(subs: seq<Tables>, n: Name): Option<int> {
    if subs == [] then None else Or(FirstNodecfg(subs[..|subs| - 1], n), At(subs[|subs| - 1].nodecfgs, n))
  }

  function FirstSub(subs: seq<Tables>, n: Name): Option<System> {
    if subs == [] then None else Or(FirstSub(subs[..|subs| - 1], n), At(subs[|subs| - 1].subs, n))
  }

  /**
    * Blocks of unnamed subsystems resolve to the parent first and then in list order. So do configurations if the
    * parent's first entry for the block has the key; a value further behind comes last.
    */
  lemma {:induction false} UnnamedInOrder(a: Tables, subs: seq<Tables>, n: Name, k: Name)
    ensures FirstOf(MergeUnnamed(a, subs).blocks, n) == Or(FirstOf(a.blocks, n), FirstBlock(subs, n))
    ensures Lookup(MergeUnnamed(a, subs).configs, n, k) == Or(Lookup(a.configs, n, k), FirstConfig(subs, n, k))
    ensures FirstValue(MergeUnnamed(a, subs).configs, n, k) ==
            Or(Lookup(a.configs, n, k), Or(FirstConfig(subs, n, k), FirstValue(a.configs, n, k)))
  {
    LookupIsFirst(a.configs, n, k);
    if subs != [] {
      hide FirstOf, Lookup, FirstValue, MergeList, MergeConfigs;
      var rest, s := subs[..|subs| - 1], subs[|subs| - 1];
      UnnamedInOrder(a, rest, n, k);
      MergeLookup(MergeUnnamed(a, rest).blocks, s.blocks, n);
      MergeConfigsLookup(MergeUnnamed(a, rest).configs, s.configs, n, k);
      MergeConfigsValue(MergeUnnamed(a, rest).configs, s.configs, n, k);
    }
  }

  /** The parent's values come first exactly if no key is in a later entry of its block only, with another value. */
  lemma ParentFirst(a: Tables, subs: seq<Tables>, n: Name, k: Name)
    ensures var own, sub := FirstValue(a.configs, n, k), FirstConfig(subs, n, k);
            FirstValue(MergeUnnamed(a, subs).configs, n, k) == Or(own, sub) <==>
            own.None? || sub.None? || own == sub || Lookup(a.configs, n, k).Some?
  {
    hide FirstValue, Lookup, FirstConfig, MergeUnnamed;
    UnnamedInOrder(a, subs, n, k);
    LookupIsFirst(a.configs, n, k);
  }

  /** Connections, node configurations and named subsystems resolve to the parent first and then in list order. */
  lemma {:induction false} UnnamedTables(a: Tables, subs: seq<Tables>, n: Name, c: (Option<string>, Option<string>))
    ensures FirstOf(MergeUnnamed(a, subs).conns, c) == Or(FirstOf(a.conns, c), FirstConn(subs, c))
    ensures At(MergeUnnamed(a, subs).nodecfgs, n) == Or(At(a.nodecfgs, n), FirstNodecfg(subs, n))
    ensures At(MergeUnnamed(a, subs).subs, n) == Or(At(a.subs, n), FirstSub(subs, n))
  {
    if subs != [] {
      hide FirstOf, MergeList, MergeConfigs, MergeMap;
      var rest, s := subs[..|subs| - 1], subs[|subs| - 1];
      var was := MergeUnnamed(a, rest);
      UnnamedTables(a, rest, n, c);
      MergeLookup(was.conns, s.conns, c);
      MergeMapAt(was.nodecfgs, s.nodecfgs, n);
      MergeMapAt(was.subs, s.subs, n);
    }
  }

  lemma MergeMapAt<V>(a: map<Name, V>, b: map<Name, V>, n: Name)
    ensures At(MergeMap(a, b, true), n) == Or(At(b, n), At(a, n))
    ensures At(MergeMap(a, b, false), n) == Or(At(a, n), At(b, n))
  {
  }

  /** A system whose tables are merged into in place. */
  class SystemBuf {
    var imports: seq<string>
    var blocks: seq<(Name, string)>
    var configs: seq<(Name, Values)>
    var conns: seq<((Option<string>, Option<string>), string)>
    var nodecfgs: map<Name, int>
    var subs: map<Name, System>

    ghost function Value(): Tables
      reads this
    {
      Tables(imports, blocks, configs, conns, nodecfgs, subs)
    }

    constructor (t: Tables)
      ensures Value() == t
    {
      imports, blocks, configs, conns, nodecfgs, subs := t.imports, t.blocks, t.configs, t.conns, t.nodecfgs, t.subs;
    }

    method MergeConfigEntry(x: (Name, Values), override: bool)
      modifies this`configs
      ensures configs == MergeConfig(old(configs), x, override)
    {
      for i := 0 to |configs|
        invariant configs == old(configs)
        invariant forall j :: 0 <= j < i ==> configs[j].0 != x.0
      {
        if configs[i].0 == x.0 {
          var dest := MergeTable(configs[i].1, x.1, override);
          configs := configs[i := (x.0, dest)];
          return;
        }
      }
      configs := configs + [x];
    }

    /** Merges sys into this system. */
    method Merge(sys: Tables, override: bool)
      modifies this
      ensures Value() == MergeTables(old(Value()), sys, override)
    {
      imports := imports + sys.imports;
      blocks := MergeEntries(blocks, sys.blocks, override);
      assert sys.configs[..0] == [];
      for i := 0 to |sys.configs|
        invariant configs == MergeConfigs(old(configs), sys.configs[..i], override)
        invariant imports == old(imports) + sys.imports && blocks == MergeList(old(blocks), sys.blocks, override)
        invariant conns == old(conns) && nodecfgs == old(nodecfgs) && subs == old(subs)
      {
        assert sys.configs[..i + 1][..i] == sys.configs[..i];
        MergeConfigEntry(sys.configs[i], override);
      }
      assert sys.configs[..|sys.configs|] == sys.configs;
      conns := MergeEntries(conns, sys.conns, override);
      nodecfgs := MergeTable(nodecfgs, sys.nodecfgs, override);
      subs := MergeTable(subs, sys.subs, override);
    }

    /** The constructor's treatment of unnamed subsystems. */
    method MergeUnnamedSubsystems(unnamed: seq<Tables>)
      modifies this
      ensures Value() == MergeUnnamed(old(Value()), unnamed)
    {
      hide MergeTables;
      assert unnamed[..0] == [];
      for i := 0 to |unnamed|
        invariant Value() == MergeUnnamed(old(Value()), unnamed[..i])
      {
        assert unnamed[..i + 1][..i] == unnamed[..i];
        Merge(unnamed[i], false);
      }
      assert unnamed[..|unnamed|] == unnamed;
    }
  }

  method MergeEntry<K(==), V>(xs: seq<(K, V)>, x: (K, V), override: bool) returns (ys: seq<(K, V)>)
    ensures ys == MergeOne(xs, x, override)
  {
    for i := 0 to |xs|
      invariant forall j :: 0 <= j < i ==> xs[j].0 != x.0
    {
      if xs[i].0 == x.0 {
        return if override then xs[i := x] else xs;
      }
    }
    ys := xs + [x];
  }

  method MergeEntries<K(==), V>(xs: seq<(K, V)>, ys: seq<(K, V)>, override: bool) returns (zs: seq<(K, V)>)
    ensures zs == MergeList(xs, ys, override)
  {
    zs := xs;
    assert ys[..0] == [];
    for i := 0 to |ys|
      invariant zs == MergeList(xs, ys[..i], override)
    {
      assert ys[..i + 1][..i] == ys[..i];
      zs := MergeEntry(zs, ys[i], override);
    }
    assert ys[..|ys|] == ys;
  }

  method MergeTable<V>(a: map<Name, V>, b: map<Name, V>, override: bool) returns (c: map<Name, V>)
    ensures c == MergeMap(a, b, override)
  {
    hide MergeMap, MergedBut;
    c := a;
    var todo := b.Keys;
    NoneMerged(a, b, override);
    while todo != {}
      invariant todo <= b.Keys
      invariant c == MergedBut(a, b, override, todo)
      decreases |todo|
    {
      var k :| k in todo;
      OneMerged(a, b, override, todo, k);
      if k !in c || override {
        c := c[k := b[k]];
      }
      todo := todo - {k};
    }
    AllMerged(a, b, override);
  }

  /** The merge of all but some of the keys of b. */
  function MergedBut<V>(a: map<Name, V>, b: map<Name, V>, override: bool, todo: set<Name>): map<Name, V> {
    MergeMap(a, b - todo, override)
  }

  lemma NoneMerged<V>(a: map<Name, V>, b: map<Name, V>, override: bool)
    ensures MergedBut(a, b, override, b.Keys) == a
  {
    assert b - b.Keys == map[];
    assert map[] + a == a && a + map[] == a;
  }

  lemma AllMerged<V>(a: map<Name, V>, b: map<Name, V>, override: bool)
    ensures MergedBut(a, b, override, {}) == MergeMap(a, b, override)
  {
    assert b - {} == b;
  }

  lemma OneMerged<V>(a: map<Name, V>, b: map<Name, V>, override: bool, todo: set<Name>, k: Name)
    requires k in todo && todo <= b.Keys
    ensures var c := MergedBut(a, b, override, todo);
            MergedBut(a, b, override, todo - {k}) == if k !in c || override then c[k := b[k]] else c
  {
    var c, d := MergedBut(a, b, override, todo), MergedBut(a, b, override, todo - {k});
    var e := if k !in c || override then c[k := b[k]] else c;
    assert (b - (todo - {k})).Keys == (b - todo).Keys + {k};
    assert d.Keys == e.Keys;
    forall x | x in d
      ensures d[x] == e[x]
    {
    }
  }
}
