/** Reference-counted configuration data that blocks share. Pointers are numbers that are never used twice. */
module RefCount {

  type Data = nat
  type ConfigId = nat
  type BlockId = nat
  type Type = nat

  const ETYPE_MISMATCH: int := -1
  const ENOSUCHENT: int := -2
  const EENTEXISTS: int := -3

  /** The configs that point to d. */
  ghost function Pointing(value: map<ConfigId, Data>, d: Data): set<ConfigId> {
    set c | c in value && value[c] == d
  }

  /**
    * Counts are exact: the live data are those with a count, a count is one less than the number of configs and of
    * callers' handles that refer to the datum, and nothing refers to freed data.
    */
  ghost predicate Counted(refcnt: map<Data, int>, value: map<ConfigId, Data>, handles: multiset<Data>) {
    && (forall c :: c in value ==> value[c] in refcnt)
    && (forall d :: d in handles ==> d in refcnt)
    && (forall d :: d in refcnt ==> refcnt[d] >= 0 && refcnt[d] + 1 == |Pointing(value, d)| + handles[d])
  }

  /** Dropping a reference frees the datum when the count would fall below zero. */
  function Dropped(refcnt: map<Data, int>, d: Data): map<Data, int>
    requires d in refcnt
  {
    if refcnt[d] == 0 then refcnt - {d} else refcnt[d := refcnt[d] - 1]
  }

  lemma PointingUpdate(value: map<ConfigId, Data>, c: ConfigId, d: Data, x: Data)
    ensures Pointing(value[c := d], x) == if x == d then Pointing(value, x) + {c} else Pointing(value, x) - {c}
    ensures |Pointing(value[c := d], x)| ==
            |Pointing(value, x)| + (if x == d then 1 else 0) - if c in value && value[c] == x then 1 else 0
  {
    var p := Pointing(value, x);
    assert Pointing(value[c := d], x) == if x == d then p + {c} else p - {c};
    assert c in p <==> c in value && value[c] == x;
  }

  lemma PointingRemove(value: map<ConfigId, Data>, c: ConfigId, x: Data)
    requires c in value
    ensures |Pointing(value - {c}, x)| == |Pointing(value, x)| - if value[c] == x then 1 else 0
  {
    assert Pointing(value - {c}, x) == Pointing(value, x) - {c};
    assert c in Pointing(value, x) <==> value[c] == x;
  }

  /** A datum is referred to by whatever points to it. */
  lemma PointedTo(value: map<ConfigId, Data>, c: ConfigId)
    requires c in value
    ensures |Pointing(value, value[c])| >= 1
  {
    assert c in Pointing(value, value[c]);
  }

  lemma AllocCounts(refcnt: map<Data, int>, value: map<ConfigId, Data>, handles: multiset<Data>, d: Data)
    requires Counted(refcnt, value, handles) && d !in refcnt
    ensures Counted(refcnt[d := 0], value, handles + multiset{d})
  {
    assert Pointing(value, d) == {};
  }

  /** Giving up a handle; the datum goes exactly if that was the last reference. */
  lemma FreeCounts(refcnt: map<Data, int>, value: map<ConfigId, Data>, handles: multiset<Data>, d: Data)
    requires Counted(refcnt, value, handles) && d in handles
    ensures Counted(Dropped(refcnt, d), value, handles - multiset{d})
    ensures d !in Dropped(refcnt, d) <==> d !in handles - multiset{d} && Pointing(value, d) == {}
  {
    var r := Dropped(refcnt, d);
    forall c | c in value
      ensures value[c] in r
    {
      PointedTo(value, c);
    }
  }

  lemma AddCounts(refcnt: map<Data, int>, value: map<ConfigId, Data>, handles: multiset<Data>, c: ConfigId, d: Data)
    requires Counted(refcnt, value, handles) && c !in value && d !in refcnt
    ensures Counted(refcnt[d := 0], value[c := d], handles)
  {
    assert Pointing(value, d) == {};
    forall x ensures |Pointing(value[c := d], x)| == |Pointing(value, x)| + if x == d then 1 else 0 {
      PointingUpdate(value, c, d, x);
    }
  }

  lemma RemoveCounts(refcnt: map<Data, int>, value: map<ConfigId, Data>, handles: multiset<Data>, c: ConfigId)
    requires Counted(refcnt, value, handles) && c in value
    ensures Counted(Dropped(refcnt, value[c]), value - {c}, handles)
    ensures value[c] !in Dropped(refcnt, value[c]) <==> Pointing(value, value[c]) == {c} && handles[value[c]] == 0
  {
    hide Pointing;
    forall x ensures |Pointing(value - {c}, x)| == |Pointing(value, x)| - if value[c] == x then 1 else 0 {
      PointingRemove(value, c, x);
    }
    var v := value - {c};
    forall b | b in v
      ensures v[b] in Dropped(refcnt, value[c])
    {
      PointedTo(v, b);
    }
    OnlyOne(value, c);
  }

  lemma OnlyOne(value: map<ConfigId, Data>, c: ConfigId)
    requires c in value
    ensures Pointing(value, value[c]) == {c} <==> |Pointing(value, value[c])| == 1
  {
    var p := Pointing(value, value[c]);
    assert c in p;
    if |p| == 1 {
      assert |p - {c}| == 0;
    }
  }

  /** Reassigning a config keeps the counts exact, if the new datum outlives the release of the old one. */
  lemma AssignCounts(refcnt: map<Data, int>, value: map<ConfigId, Data>, handles: multiset<Data>, c: ConfigId, d: Data)
    requires Counted(refcnt, value, handles) && c in value && d in refcnt
    requires Survives(refcnt, value, c, d)
    ensures var r := Dropped(refcnt, value[c]);
            d in r && Counted(r[d := r[d] + 1], value[c := d], handles)
  {
    hide Pointing;
    var r := Dropped(refcnt, value[c]);
    var now := r[d := r[d] + 1];
    forall x
      ensures |Pointing(value[c := d], x)| ==
              |Pointing(value, x)| + (if x == d then 1 else 0) - if value[c] == x then 1 else 0
    {
      PointingUpdate(value, c, d, x);
    }
    var v := value[c := d];
    forall b | b in v
      ensures v[b] in now
    {
      PointedTo(v, b);
    }
  }

  /** Whether d is still there once config c has given up its value. */
  predicate Survives(refcnt: map<Data, int>, value: map<ConfigId, Data>, c: ConfigId, d: Data)
    requires c in value && d in refcnt
  {
    value[c] != d || refcnt[d] > 0
  }

  /** A caller that holds a handle on the datum may always assign it; and otherwise it goes wrong in one case only. */
  lemma AssignIsSafe(refcnt: map<Data, int>, value: map<ConfigId, Data>, handles: multiset<Data>, c: ConfigId, d: Data)
    requires Counted(refcnt, value, handles) && c in value && d in refcnt
    ensures d in handles ==> Survives(refcnt, value, c, d)
    ensures d in Dropped(refcnt, value[c]) <==> Survives(refcnt, value, c, d)
    ensures !Survives(refcnt, value, c, d) <==> Pointing(value, d) == {c} && handles[d] == 0
  {
    PointedTo(value, c);
    OnlyOne(value, c);
    assert Pointing(value, d) == {c} ==> c in Pointing(value, d);
  }

  type Lists = map<BlockId, seq<(string, ConfigId)>>

  ghost predicate On(configs: Lists, c: ConfigId) {
    exists b, i :: b in configs && 0 <= i < |configs[b]| && configs[b][i].1 == c
  }

  /** No config is on two lists, or twice on one. */
  ghost predicate Once(configs: Lists) {
    forall b, i, a, j ::
      b in configs && 0 <= i < |configs[b]| && a in configs && 0 <= j < |configs[a]| && !(a == b && i == j) ==>
        configs[b][i].1 != configs[a][j].1
  }

  /** The lists of the blocks hold exactly the live configs, and each of them once. */
  ghost predicate Listed(configs: Lists, live: set<ConfigId>) {
    && (forall b, i :: b in configs && 0 <= i < |configs[b]| ==> configs[b][i].1 in live)
    && (forall c :: c in live ==> On(configs, c))
    && Once(configs)
  }

  lemma ListedIsLive(configs: Lists, live: set<ConfigId>, b: BlockId, i: nat)
    requires Listed(configs, live) && b in configs && i < |configs[b]|
    ensures configs[b][i].1 in live
  {
  }

  lemma ListedNew(configs: Lists, live: set<ConfigId>, b: BlockId)
    requires Listed(configs, live) && b !in configs
    ensures Listed(configs[b := []], live)
  {
    var now := configs[b := []];
    forall c | c in live
      ensures On(now, c)
    {
      var a, i :| a in configs && 0 <= i < |configs[a]| && configs[a][i].1 == c;
      assert now[a][i].1 == c;
    }
  }

  lemma ListedAdd(configs: Lists, live: set<ConfigId>, b: BlockId, name: string, c: ConfigId)
    requires Listed(configs, live) && b in configs && c !in live
    ensures Listed(configs[b := configs[b] + [(name, c)]], live + {c})
  {
    var now := configs[b := configs[b] + [(name, c)]];
    forall x | x in live + {c}
      ensures On(now, x)
    {
      if x == c {
        assert now[b][|configs[b]|].1 == x;
      } else {
        var a, i :| a in configs && 0 <= i < |configs[a]| && configs[a][i].1 == x;
        assert now[a][i].1 == x;
      }
    }
  }

  function Without(configs: Lists, b: BlockId, i: nat): Lists
    requires b in configs && i < |configs[b]|
  {
    configs[b := configs[b][..i] + configs[b][i + 1..]]
  }

  /** Where the entry at j of list a was before entry i of list b was taken out. */
  lemma WasAt(configs: Lists, b: BlockId, i: nat, a: BlockId, j: nat)
    requires b in configs && i < |configs[b]| && a in configs && j < |Without(configs, b, i)[a]|
    ensures var k := if a == b && j >= i then j + 1 else j;
            k < |configs[a]| && Without(configs, b, i)[a][j] == configs[a][k]
  {
  }

  lemma OnceWithout(configs: Lists, b: BlockId, i: nat)
    requires Once(configs) && b in configs && i < |configs[b]|
    ensures Once(Without(configs, b, i))
    ensures forall a, j :: a in configs && 0 <= j < |Without(configs, b, i)[a]| ==>
              Without(configs, b, i)[a][j].1 != configs[b][i].1
  {
    var now: Lists := Without(configs, b, i);
    forall a, j | a in now && 0 <= j < |now[a]|
      ensures var k := if a == b && j >= i then j + 1 else j;
              k < |configs[a]| && now[a][j] == configs[a][k]
    {
      WasAt(configs, b, i, a, j);
    }
  }

  lemma ListedRemove(configs: Lists, live: set<ConfigId>, b: BlockId, i: nat)
    requires Listed(configs, live) && b in configs && i < |configs[b]|
    ensures Listed(Without(configs, b, i), live - {configs[b][i].1})
  {
    var now: Lists := Without(configs, b, i);
    OnceWithout(configs, b, i);
    forall a, j | a in now && 0 <= j < |now[a]|
      ensures now[a][j].1 in live
    {
      WasAt(configs, b, i, a, j);
    }
    hide Once;
    forall x | x in live && x != configs[b][i].1
      ensures On(now, x)
    {
      var a, j :| a in configs && 0 <= j < |configs[a]| && configs[a][j].1 == x;
      assert now[a][if a == b && j > i then j - 1 else j].1 == x;
    }
  }

  lemma ListedDrop(configs: Lists, live: set<ConfigId>, b: BlockId)
    requires Listed(configs, live) && b in configs && configs[b] == []
    ensures Listed(configs - {b}, live)
  {
    var now := configs - {b};
    forall c | c in live
      ensures On(now, c)
    {
      var a, i :| a in configs && 0 <= i < |configs[a]| && configs[a][i].1 == c;
      assert now[a][i].1 == c;
    }
  }

  /** The counts are determined by who refers to what. */
  lemma CountsAreUnique(r: map<Data, int>, q: map<Data, int>, value: map<ConfigId, Data>, handles: multiset<Data>)
    requires Counted(r, value, handles) && Counted(q, value, handles)
    ensures r == q
  {
    forall d | d in r || d in q
      ensures d in r && d in q
    {
      if Pointing(value, d) != {} {
        var c :| c in Pointing(value, d);
        assert value[c] == d;
      }
    }
  }

  /** Nothing leaks: once every block is freed and every handle given back, no config and no datum is left. */
  lemma NothingLeaks(refcnt: map<Data, int>, value: map<ConfigId, Data>, handles: multiset<Data>, configs: Lists)
    requires Counted(refcnt, value, handles) && Listed(configs, value.Keys)
    requires configs == map[] && handles == multiset{}
    ensures value == map[] && refcnt == map[]
  {
    assert forall c :: c in value.Keys ==> On(configs, c);
    assert value == map[];
    CountsAreUnique(refcnt, map[], value, handles);
  }

  /** Nothing is added or changed. */
  ghost predicate Restricts<K>(now: map<K, Type>, was: map<K, Type>) {
    forall k :: k in now ==> k in was && now[k] == was[k]
  }

  /** Every config points to a live datum of its own type. */
  ghost predicate Typed(ctype: map<ConfigId, Type>, value: map<ConfigId, Data>, dtype: map<Data, Type>) {
    forall c :: c in value ==> c in ctype && value[c] in dtype && ctype[c] == dtype[value[c]]
  }

  lemma TypedAdd(
      ctype: map<ConfigId, Type>, value: map<ConfigId, Data>, dtype: map<Data, Type>, c: ConfigId, d: Data, t: Type)
    requires Typed(ctype, value, dtype) && d !in dtype
    ensures Typed(ctype, value, dtype[d := t])
    ensures Typed(ctype[c := t], value[c := d], dtype[d := t])
  {
  }

  /** Types never change, so that they fit whatever remains. */
  lemma TypedRest(
      ctype: map<ConfigId, Type>, value: map<ConfigId, Data>, dtype: map<Data, Type>,
      ctype': map<ConfigId, Type>, value': map<ConfigId, Data>, dtype': map<Data, Type>)
    requires Typed(ctype, value, dtype) && Restricts(ctype', ctype) && Restricts(dtype', dtype)
    requires forall c :: c in value' ==> c in value && value'[c] == value[c] && c in ctype' && value'[c] in dtype'
    ensures Typed(ctype', value', dtype')
  {
  }

  lemma TypedAssign(
      ctype: map<ConfigId, Type>, value: map<ConfigId, Data>, dtype: map<Data, Type>,
      value': map<ConfigId, Data>, dtype': map<Data, Type>, c: ConfigId, d: Data)
    requires Typed(ctype, value, dtype) && Restricts(dtype', dtype) && c in ctype
    requires d in dtype' && ctype[c] == dtype'[d] && value' == value[c := d]
    requires forall x :: x in value' ==> value'[x] in dtype'
    ensures Typed(ctype, value', dtype')
  {
  }

  lemma Same<K>(m: map<K, Type>)
    ensures Restricts(m, m)
  {
  }

  lemma Less<K>(m: map<K, Type>, k: K)
    ensures Restricts(m - {k}, m)
  {
  }

  lemma Chained<K>(now: map<K, Type>, mid: map<K, Type>, was: map<K, Type>)
    requires Restricts(now, mid) && Restricts(mid, was)
    ensures Restricts(now, was)
  {
  }

  lemma KeptType<K>(now: map<K, Type>, was: map<K, Type>, k: K)
    requires Restricts(now, was) && k in now
    ensures k in was && now[k] == was[k]
  {
  }

  lemma ValuesLive(refcnt: map<Data, int>, value: map<ConfigId, Data>, handles: multiset<Data>)
    requires Counted(refcnt, value, handles)
    ensures forall c :: c in value ==> value[c] in refcnt
  {
  }

  class Heap {
    var refcnt: map<Data, int>
    var dtype: map<Data, Type>
    var value: map<ConfigId, Data>
    var ctype: map<ConfigId, Type>
    var configs: map<BlockId, seq<(string, ConfigId)>>
    var next: nat
    ghost var handles: multiset<Data>

    ghost predicate Valid()
      reads this
    {
      Sound() && Listed(configs, value.Keys) && forall b :: b in configs ==> b < next
    }

    ghost predicate Sound()
      reads this
    {
      && Counted(refcnt, value, handles)
      && dtype.Keys == refcnt.Keys && ctype.Keys == value.Keys
      && Typed(ctype, value, dtype)
      && (forall d :: d in refcnt ==> d < next) && (forall c :: c in value ==> c < next)
    }

    constructor ()
      ensures Valid() && refcnt == map[] && value == map[] && configs == map[] && handles == multiset{}
    {
      refcnt, dtype, value, ctype, configs, next, handles := map[], map[], map[], map[], map[], 0, multiset{};
    }

    method BlockNew() returns (b: BlockId)
      requires Valid()
      modifies this`configs, this`next
      ensures Valid() && b !in old(configs) && configs == old(configs)[b := []]
    {
      hide Counted, Listed, Typed, Restricts;
      b := next;
      ListedNew(configs, value.Keys, b);
      next := next + 1;
      configs := configs[b := []];
    }

    /** A new datum, on which the caller holds the first handle. */
    method DataAlloc(t: Type) returns (d: Data)
      requires Valid()
      modifies this`refcnt, this`dtype, this`next, this`handles
      ensures Valid() && d !in old(refcnt)
      ensures refcnt == old(refcnt)[d := 0] && handles == old(handles) + multiset{d}
      ensures dtype == old(dtype)[d := t]
    {
      hide Counted, Listed, Typed, Restricts;
      d := next;
      next := next + 1;
      AllocCounts(refcnt, value, handles, d);
      TypedAdd(ctype, value, dtype, d, d, t);
      refcnt, dtype := refcnt[d := 0], dtype[d := t];
      handles := handles + multiset{d};
    }

    method Drop(d: Data)
      requires d in refcnt && refcnt[d] >= 0
      modifies this`refcnt, this`dtype
      ensures refcnt == Dropped(old(refcnt), d)
      ensures dtype == if old(refcnt)[d] == 0 then old(dtype) - {d} else old(dtype)
      ensures Restricts(dtype, old(dtype))
      ensures refcnt.Keys == old(refcnt).Keys - (if old(refcnt)[d] == 0 then {d} else {})
    {
      Same(dtype);
      Less(dtype, d);
      refcnt := refcnt[d := refcnt[d] - 1];
      if refcnt[d] < 0 {
        refcnt := refcnt - {d};
        dtype := dtype - {d};
      }
    }

    /** A caller gives up its handle: the datum is freed exactly if nothing else refers to it. */
    method DataFree(d: Data)
      requires Valid() && d in handles
      modifies this`refcnt, this`dtype, this`handles
      ensures Valid() && handles == old(handles) - multiset{d}
      ensures refcnt == Dropped(old(refcnt), d) && Restricts(dtype, old(dtype))
      ensures d !in refcnt <==> d !in handles && Pointing(value, d) == {}
    {
      hide Counted, Pointing, Listed, Dropped, Typed, Restricts;
      FreeCounts(refcnt, value, handles, d);
      HandleIsLive(refcnt, value, handles, d);
      handles := handles - multiset{d};
      Drop(d);
      ValuesLive(refcnt, value, handles);
      TypedRest(ctype, value, old(dtype), ctype, value, dtype) by { Same(ctype); }
    }

    method ConfigGet(b: BlockId, name: string) returns (i: nat)
      requires b in configs
      ensures i <= |configs[b]| && (i < |configs[b]| ==> configs[b][i].0 == name)
      ensures forall j :: 0 <= j < i ==> configs[b][j].0 != name
    {
      i := 0;
      while i < |configs[b]|
        invariant i <= |configs[b]| && forall j :: 0 <= j < i ==> configs[b][j].0 != name
      {
        if configs[b][i].0 == name {
          return;
        }
        i := i + 1;
      }
    }

    /** A new config with a fresh datum of its own, on which no caller holds a handle. */
    method ConfigAdd(b: BlockId, name: string, t: Type) returns (ret: int, c: ConfigId)
      requires Valid() && b in configs
      modifies this`refcnt, this`dtype, this`value, this`ctype, this`configs, this`next
      ensures Valid()
      ensures ret == 0 <==> forall i :: 0 <= i < |old(configs)[b]| ==> old(configs)[b][i].0 != name
      ensures ret != 0 ==> refcnt == old(refcnt) && value == old(value) && configs == old(configs)
      ensures ret == 0 ==>
                && c !in old(value) && c in value && value[c] !in old(refcnt)
                && value == old(value)[c := value[c]] && refcnt == old(refcnt)[value[c] := 0]
                && ctype == old(ctype)[c := t] && dtype == old(dtype)[value[c] := t]
                && configs == old(configs)[b := old(configs)[b] + [(name, c)]]
    {
      hide Counted, Listed, Typed, Restricts;
      var i := ConfigGet(b, name);
      if i < |configs[b]| {
        return EENTEXISTS, 0;
      }
      c := AddFresh(b, name, t);
      ret := 0;
    }

    method AddFresh(b: BlockId, name: string, t: Type) returns (c: ConfigId)
      requires Valid() && b in configs
      modifies this`refcnt, this`dtype, this`value, this`ctype, this`configs, this`next
      ensures Valid()
      ensures c !in old(value) && c in value && value[c] !in old(refcnt)
      ensures value == old(value)[c := value[c]] && refcnt == old(refcnt)[value[c] := 0]
      ensures ctype == old(ctype)[c := t] && dtype == old(dtype)[value[c] := t]
      ensures configs == old(configs)[b := old(configs)[b] + [(name, c)]]
    {
      hide Counted, Listed, Typed, Restricts;
      var d := next + 1;
      c := next;
      AddCounts(refcnt, value, handles, c, d);
      ListedAdd(configs, value.Keys, b, name, c);
      next := next + 2;
      TypedAdd(ctype, value, dtype, c, d, t);
      AddDatum(c, d, t);
      configs := configs[b := configs[b] + [(name, c)]];
      assert value.Keys == old(value.Keys) + {c};
    }

    method AddDatum(c: ConfigId, d: Data, t: Type)
      modifies this`refcnt, this`dtype, this`value, this`ctype
      ensures refcnt == old(refcnt)[d := 0] && dtype == old(dtype)[d := t]
      ensures value == old(value)[c := d] && ctype == old(ctype)[c := t]
    {
      refcnt, dtype := refcnt[d := 0], dtype[d := t];
      value, ctype := value[c := d], ctype[c := t];
    }

    /**
      * Lets config c point to d. Releasing the old value first frees d itself exactly if c held the only reference to
      * it (see `AssignIsSafe`); then c is left pointing to freed data, and otherwise all counts stay exact.
      */
    method ConfigAssign(c: ConfigId, d: Data) returns (ret: int)
      requires Valid() && c in value && d in refcnt
      modifies this`refcnt, this`dtype, this`value
      ensures ret == 0 <==> old(ctype)[c] == old(dtype)[d]
      ensures ret != 0 ==> Valid() && value == old(value) && refcnt == old(refcnt)
      ensures Restricts(dtype, old(dtype))
      ensures ret == 0 ==> value == old(value)[c := d]
      ensures ret == 0 ==> refcnt.Keys == Dropped(old(refcnt), old(value)[c]).Keys
      ensures ret == 0 && Survives(old(refcnt), old(value), c, d) ==> Valid() && d in refcnt
      ensures ret == 0 && !Survives(old(refcnt), old(value), c, d) ==> d !in refcnt && !Valid()
    {
      hide Counted, Listed, Dropped, Typed, Restricts;
      if ctype[c] != dtype[d] {
        Same(dtype);
        return ETYPE_MISMATCH;
      }
      ConfigIsLive(refcnt, value, handles, c);
      AssignIsSafe(refcnt, value, handles, c, d);
      if Survives(refcnt, value, c, d) {
        AssignCounts(refcnt, value, handles, c, d);
      }
      Drop(value[c]);
      if d in refcnt {
        refcnt := refcnt[d := refcnt[d] + 1];
      }
      value := value[c := d];
      assert value.Keys == old(value.Keys);
      if d !in refcnt {
        PointsToLive(refcnt, value, handles, c);
      } else {
        ValuesLive(refcnt, value, handles);
        TypedAssign(ctype, old(value), old(dtype), value, dtype, c, d) by { KeptType(dtype, old(dtype), d); }
      }
      ret := 0;
    }

    /** A config that is assigned the datum it was created with, as no caller with a handle would do, loses it. */
    static method LoseDatum(t: Type) returns (h: Heap, c: ConfigId, d: Data)
      ensures fresh(h) && c in h.value && h.value[c] == d && d !in h.refcnt && !h.Valid()
    {
      hide Counted, Listed, Dropped, Typed, Restricts;
      h := new Heap();
      var b := h.BlockNew();
      var ret;
      ret, c := h.ConfigAdd(b, "", t);
      d := h.value[c];
      assert ret == 0 && h.refcnt[d] == 0 && h.ctype[c] == h.dtype[d];
      ret := h.ConfigAssign(c, d);
    }

    /** Takes entry i off the list of block b and frees it, and with it its datum if that was the last reference. */
    method FreeListed(b: BlockId, i: nat)
      requires Valid() && b in configs && i < |configs[b]|
      modifies this`refcnt, this`dtype, this`value, this`ctype, this`configs
      ensures Valid()
      ensures configs == Without(old(configs), b, i)
      ensures Restricts(dtype, old(dtype)) && Restricts(ctype, old(ctype))
      ensures var c := old(configs)[b][i].1;
              && c in old(value) && value == old(value) - {c}
              && refcnt == Dropped(old(refcnt), old(value)[c])
              && (old(value)[c] !in refcnt <==>
                    Pointing(old(value), old(value)[c]) == {c} && handles[old(value)[c]] == 0)
    {
      hide Counted, Listed, Dropped, Pointing, Typed, Restricts;
      var c := configs[b][i].1;
      ListedIsLive(configs, value.Keys, b, i);
      ListedRemove(configs, value.Keys, b, i);
      configs := configs[b := configs[b][..i] + configs[b][i + 1..]];
      ConfigFree(c);
      assert value.Keys == old(value.Keys) - {c};
    }

    method ConfigFree(c: ConfigId)
      requires Sound() && c in value
      modifies this`refcnt, this`dtype, this`value, this`ctype
      ensures Sound() && value == old(value) - {c} && refcnt == Dropped(old(refcnt), old(value)[c])
      ensures Restricts(dtype, old(dtype)) && Restricts(ctype, old(ctype))
      ensures old(value)[c] !in refcnt <==>
              Pointing(old(value), old(value)[c]) == {c} && handles[old(value)[c]] == 0
    {
      hide Counted, Dropped, Pointing, Typed, Restricts;
      ConfigIsLive(refcnt, value, handles, c);
      RemoveCounts(refcnt, value, handles, c);
      Drop(value[c]);
      value, ctype := value - {c}, ctype - {c};
      ValuesLive(refcnt, value, handles);
      Less(old(ctype), c);
      TypedRest(old(ctype), old(value), old(dtype), ctype, value, dtype);
    }

    method ConfigRm(b: BlockId, name: string) returns (ret: int)
      requires Valid() && b in configs
      modifies this`refcnt, this`dtype, this`value, this`ctype, this`configs
      ensures Valid()
      ensures ret == 0 <==> exists i :: 0 <= i < |old(configs)[b]| && old(configs)[b][i].0 == name
      ensures Restricts(dtype, old(dtype)) && Restricts(ctype, old(ctype))
      ensures ret != 0 ==> value == old(value) && refcnt == old(refcnt) && configs == old(configs)
      ensures ret == 0 ==> exists i :: 0 <= i < |old(configs)[b]| && old(configs)[b][i].0 == name &&
                             value == old(value) - {old(configs)[b][i].1} &&
                             configs == Without(old(configs), b, i)
    {
      hide Counted, Listed, Typed, Restricts;
      var i := ConfigGet(b, name);
      if i == |configs[b]| {
        Same(dtype);
        Same(ctype);
        return ENOSUCHENT;
      }
      FreeListed(b, i);
      ret := 0;
    }

    /** Frees a block and everything that only its configs kept alive. */
    method BlockFree(b: BlockId)
      requires Valid() && b in configs
      modifies this`refcnt, this`dtype, this`value, this`ctype, this`configs
      ensures Valid() && configs == old(configs) - {b}
      ensures Restricts(dtype, old(dtype)) && Restricts(ctype, old(ctype))
      ensures forall c :: c in value <==>
                c in old(value) && forall i :: 0 <= i < |old(configs)[b]| ==> old(configs)[b][i].1 != c
    {
      hide Counted, Listed, Typed, Restricts;
      ghost var all := configs[b];
      ghost var k := 0;
      Same(dtype);
      Same(ctype);
      assert all[0..] == all && configs == configs[b := all];
      while configs[b] != []
        invariant Valid() && k <= |all| && b in configs && configs == old(configs)[b := all[k..]]
        invariant Restricts(dtype, old(dtype)) && Restricts(ctype, old(ctype))
        invariant forall c :: c in value <==> c in old(value) && forall i :: 0 <= i < k ==> all[i].1 != c
        decreases |configs[b]|
      {
        ghost var dtype', ctype' := dtype, ctype;
        FreeListed(b, 0);
        Chained(dtype, dtype', old(dtype));
        Chained(ctype, ctype', old(ctype));
        assert configs[b] == all[k..][1..] == all[k + 1..];
        k := k + 1;
      }
      ListedDrop(configs, value.Keys, b);
      configs := configs - {b};
    }
  }

  lemma HandleIsLive(refcnt: map<Data, int>, value: map<ConfigId, Data>, handles: multiset<Data>, d: Data)
    requires Counted(refcnt, value, handles) && d in handles
    ensures d in refcnt && refcnt[d] >= 0
  {
  }

  lemma PointsToLive(refcnt: map<Data, int>, value: map<ConfigId, Data>, handles: multiset<Data>, c: ConfigId)
    requires c in value && value[c] !in refcnt
    ensures !Counted(refcnt, value, handles)
  {
  }

  lemma ConfigIsLive(refcnt: map<Data, int>, value: map<ConfigId, Data>, handles: multiset<Data>, c: ConfigId)
    requires Counted(refcnt, value, handles) && c in value
    ensures value[c] in refcnt && refcnt[value[c]] >= 0
  {
  }
}
