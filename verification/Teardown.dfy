/** A node and its registry of blocks: taking everything down in order. */
module Teardown {
  import opened Lifecycle

  datatype Event = Event(name: string, hook: Hook)

  ghost predicate DistinctBlocks(bs: seq<Block>) {
    forall i, j :: 0 <= i < j < |bs| ==> bs[i].name != bs[j].name && bs[i] != bs[j]
  }

  function Protos(bs: seq<Block>): seq<Block> {
    if bs == [] then [] else Protos(bs[..|bs| - 1]) + if bs[|bs| - 1].proto then [bs[|bs| - 1]] else []
  }

  /** One event for each block in the given state, in registry order. */
  ghost function EventsFor(bs: seq<Block>, states: map<Block, BlockState>, ss: set<BlockState>, h: Hook): seq<Event>
    requires forall b :: b in bs ==> b in states
  {
    if bs == [] then []
    else
      var b := bs[|bs| - 1];
      EventsFor(bs[..|bs| - 1], states, ss, h) + if states[b] in ss then [Event(b.name, h)] else []
  }

  lemma EventsSnoc(bs: seq<Block>, i: nat, states: map<Block, BlockState>, ss: set<BlockState>, h: Hook)
    requires i < |bs| && forall b :: b in bs ==> b in states
    ensures EventsFor(bs[..i + 1], states, ss, h) ==
            EventsFor(bs[..i], states, ss, h) + if states[bs[i]] in ss then [Event(bs[i].name, h)] else []
  {
    assert bs[..i + 1][..i] == bs[..i];
  }

  lemma NoEvents(states: map<Block, BlockState>, ss: set<BlockState>, h: Hook)
    ensures EventsFor([], states, ss, h) == []
  {
  }

  lemma NoProtos()
    ensures Protos([]) == []
  {
  }

  lemma ProtosSnoc(bs: seq<Block>, i: nat)
    requires i < |bs|
    ensures Protos(bs[..i + 1]) == Protos(bs[..i]) + if bs[i].proto then [bs[i]] else []
  {
    assert bs[..i + 1][..i] == bs[..i];
  }

  /** Removing the entry of that name from a list of distinct names. */
  lemma RemoveStep(kept: seq<Block>, b: Block, rest: seq<Block>, now: seq<Block>, k: nat)
    requires DistinctBlocks(kept + [b] + rest) && k < |kept + [b] + rest|
    requires (kept + [b] + rest)[k].name == b.name
    requires now == (kept + [b] + rest)[..k] + (kept + [b] + rest)[k + 1..]
    ensures now == kept + rest
  {
    assert (kept + [b] + rest)[|kept|] == b;
    assert k == |kept|;
  }

  lemma DistinctWithout(bs: seq<Block>, i: nat)
    requires DistinctBlocks(bs) && i < |bs|
    ensures DistinctBlocks(bs[..i] + bs[i + 1..])
  {
    var now := bs[..i] + bs[i + 1..];
    assert forall k :: 0 <= k < |now| ==> now[k] == bs[if k < i then k else k + 1];
  }

  /** The states of all blocks. */
  ghost function States(bs: seq<Block>): (m: map<Block, BlockState>)
    reads bs
    ensures m.Keys == set b | b in bs
    ensures forall b :: b in bs ==> m[b] == b.state
  {
    map b | b in bs :: b.state
  }

  /** What a block in the given state still goes through. */
  function LastCalls(s: BlockState): seq<Hook> {
    match s case PREINIT => [] case INACTIVE => [Cleanup] case ACTIVE => [Stop, Cleanup]
  }

  /** The events are those of the blocks in one of the states, one for each of them. */
  lemma {:induction false} EventsAreThose(
      bs: seq<Block>, states: map<Block, BlockState>, ss: set<BlockState>, h: Hook, b: Block)
    requires DistinctBlocks(bs) && b in bs && forall x :: x in bs ==> x in states
    ensures multiset(EventsFor(bs, states, ss, h))[Event(b.name, h)] == if states[b] in ss then 1 else 0
    ensures |EventsFor(bs, states, ss, h)| <= |bs|
  {
    var rest, last := bs[..|bs| - 1], bs[|bs| - 1];
    assert bs == rest + [last];
    if b != last {
      EventsAreThose(rest, states, ss, h, b);
    } else {
      NotAmong(rest, states, ss, h, b.name);
    }
    EventsAtMost(rest, states, ss, h);
  }

  lemma {:induction false} EventsAtMost(bs: seq<Block>, states: map<Block, BlockState>, ss: set<BlockState>, h: Hook)
    requires forall x :: x in bs ==> x in states
    ensures |EventsFor(bs, states, ss, h)| <= |bs|
  {
    if bs != [] {
      EventsAtMost(bs[..|bs| - 1], states, ss, h);
    }
  }

  lemma {:induction false} NotAmong(
      bs: seq<Block>, states: map<Block, BlockState>, ss: set<BlockState>, h: Hook, name: string)
    requires (forall x :: x in bs ==> x in states) && forall x :: x in bs ==> x.name != name
    ensures Event(name, h) !in EventsFor(bs, states, ss, h)
  {
    if bs != [] {
      NotAmong(bs[..|bs| - 1], states, ss, h, name);
    }
  }

  class UbxNode {
    var blocks: seq<Block>
    ghost var log: seq<Event>

    ghost predicate Valid()
      reads this, blocks
    {
      DistinctBlocks(blocks) && forall b :: b in blocks ==> b.Valid()
    }

    method BlockGet(name: string) returns (b: Block?)
      ensures b == null <==> forall x :: x in blocks ==> x.name != name
      ensures b != null ==> b in blocks && b.name == name
    {
      for i := 0 to |blocks|
        invariant forall j :: 0 <= j < i ==> blocks[j].name != name
      {
        if blocks[i].name == name {
          return blocks[i];
        }
      }
      b := null;
    }

    /** Removes a block instance that is in its initial state. */
    method BlockRm(name: string) returns (ret: int, ghost at: nat)
      requires Valid()
      modifies this`blocks
      ensures Valid()
      ensures ret == 0 <==> exists b :: b in old(blocks) && b.name == name && !b.proto && b.state == PREINIT
      ensures ret != 0 ==> blocks == old(blocks)
      ensures ret == 0 ==> at < |old(blocks)| && old(blocks)[at].name == name &&
                           blocks == old(blocks)[..at] + old(blocks)[at + 1..]
    {
      at := 0;
      var b := BlockGet(name);
      if b == null {
        return ENOSUCHENT, 0;
      }
      if b.proto {
        return EINVALID_BLOCK_TYPE, 0;
      }
      if b.state != PREINIT {
        return EWRONG_STATE, 0;
      }
      var i :| 0 <= i < |blocks| && blocks[i] == b;
      DistinctWithout(blocks, i);
      blocks := blocks[..i] + blocks[i + 1..];
      ret, at := 0, i;
    }

    method StopAll()
      requires Valid()
      modifies this`log, blocks
      ensures Valid() && blocks == old(blocks)
      ensures log == old(log) + EventsFor(blocks, old(States(blocks)), {ACTIVE}, Stop)
      ensures forall b :: b in blocks ==>
                if old(b.state) == ACTIVE then b.state == INACTIVE && b.calls == old(b.calls) + [Stop]
                else b.state == old(b.state) && b.calls == old(b.calls)
    {
      hide EventsFor, RunFrom, After;
      ghost var states := States(blocks);
      NoEvents(states, {ACTIVE}, Stop);
      assert blocks[..0] == [];
      for i := 0 to |blocks|
        invariant blocks == old(blocks) && Valid()
        invariant log == old(log) + EventsFor(blocks[..i], states, {ACTIVE}, Stop)
        invariant forall j :: 0 <= j < i ==>
                    if old(blocks[j].state) == ACTIVE
                    then blocks[j].state == INACTIVE && blocks[j].calls == old(blocks[j].calls) + [Stop]
                    else blocks[j].state == old(blocks[j].state) && blocks[j].calls == old(blocks[j].calls)
        invariant forall j :: i <= j < |blocks| ==>
                    blocks[j].state == old(blocks[j].state) && blocks[j].calls == old(blocks[j].calls)
      {
        EventsSnoc(blocks, i, states, {ACTIVE}, Stop);
        if blocks[i].state == ACTIVE {
          var ret := blocks[i].BlockStop();
          log := log + [Event(blocks[i].name, Stop)];
        }
      }
      assert blocks[..|blocks|] == blocks;
    }

    method CleanupAll()
      requires Valid()
      modifies this`log, blocks
      ensures Valid() && blocks == old(blocks)
      ensures log == old(log) + EventsFor(blocks, old(States(blocks)), {INACTIVE}, Cleanup)
      ensures forall b :: b in blocks ==>
                if old(b.state) == INACTIVE then b.state == PREINIT && b.calls == old(b.calls) + [Cleanup]
                else b.state == old(b.state) && b.calls == old(b.calls)
    {
      hide EventsFor, RunFrom, After;
      ghost var states := States(blocks);
      NoEvents(states, {INACTIVE}, Cleanup);
      assert blocks[..0] == [];
      for i := 0 to |blocks|
        invariant blocks == old(blocks) && Valid()
        invariant log == old(log) + EventsFor(blocks[..i], states, {INACTIVE}, Cleanup)
        invariant forall j :: 0 <= j < i ==>
                    if old(blocks[j].state) == INACTIVE
                    then blocks[j].state == PREINIT && blocks[j].calls == old(blocks[j].calls) + [Cleanup]
                    else blocks[j].state == old(blocks[j].state) && blocks[j].calls == old(blocks[j].calls)
        invariant forall j :: i <= j < |blocks| ==>
                    blocks[j].state == old(blocks[j].state) && blocks[j].calls == old(blocks[j].calls)
      {
        EventsSnoc(blocks, i, states, {INACTIVE}, Cleanup);
        if blocks[i].state == INACTIVE {
          var ret := blocks[i].BlockCleanup();
          log := log + [Event(blocks[i].name, Cleanup)];
        }
      }
      assert blocks[..|blocks|] == blocks;
    }

    /** Removes b, which stands between kept and rest, unless it is a prototype. */
    method RemoveOne(b: Block, ghost kept: seq<Block>, ghost rest: seq<Block>)
      requires Valid() && blocks == kept + [b] + rest && b.state == PREINIT
      modifies this`blocks
      ensures Valid() && blocks == kept + (if b.proto then [b] else []) + rest
    {
      hide Block.Valid;
      assert blocks[|kept|] == b;
      if b.state == PREINIT && !b.proto {
        var ret, at := BlockRm(b.name);
        RemoveStep(kept, b, rest, blocks, at);
        assert kept + [] + rest == kept + rest;
      }
    }

    method RemoveAll()
      requires Valid()
      requires forall b :: b in blocks ==> b.state == PREINIT
      modifies this`blocks
      ensures Valid() && blocks == Protos(old(blocks))
    {
      hide Protos, Block.Valid, DistinctBlocks;
      var all := blocks;
      NoProtos();
      assert [] + all == all;
      for i := 0 to |all|
        invariant Valid()
        invariant blocks == Protos(all[..i]) + all[i..]
      {
        ProtosSnoc(all, i);
        assert all[i..] == [all[i]] + all[i + 1..];
        assert Protos(all[..i]) + all[i..] == Protos(all[..i]) + [all[i]] + all[i + 1..];
        RemoveOne(all[i], Protos(all[..i]), all[i + 1..]);
      }
      assert all[..|all|] == all;
    }

    /**
      * Takes the node down from any state: all stops come before any cleanup, and what remains are the prototypes,
      * all in their initial state.
      */
    method Clear()
      requires Valid()
      modifies this, blocks
      ensures Valid() && blocks == Protos(old(blocks))
      ensures forall b :: b in old(blocks) ==> b.state == PREINIT
      ensures forall b :: b in old(blocks) ==> b.calls == old(b.calls) + LastCalls(old(b.state))
      ensures log == old(log) + EventsFor(old(blocks), old(States(blocks)), {ACTIVE}, Stop)
                              + EventsFor(old(blocks), old(States(blocks)), {ACTIVE, INACTIVE}, Cleanup)
    {
      StopAndCleanup();
      RemoveAll();
    }

    /** All stops, then all cleanups. */
    method StopAndCleanup()
      requires Valid()
      modifies this`log, blocks
      ensures Valid() && blocks == old(blocks)
      ensures forall b :: b in blocks ==> b.state == PREINIT
      ensures forall b :: b in blocks ==> b.calls == old(b.calls) + LastCalls(old(b.state))
      ensures log == old(log) + EventsFor(blocks, old(States(blocks)), {ACTIVE}, Stop)
                              + EventsFor(blocks, old(States(blocks)), {ACTIVE, INACTIVE}, Cleanup)
    {
      hide Valid, EventsFor;
      ghost var before, all := States(blocks), blocks;
      StopAll();
      ghost var between := States(blocks);
      CleanupAll();
      SameCleanups(all, before, between);
    }
  }

  /** After the stops, the blocks to clean up are those that were not in their initial state at first. */
  lemma {:induction false} SameCleanups(bs: seq<Block>, before: map<Block, BlockState>, between: map<Block, BlockState>)
    requires forall b :: b in bs ==> b in before && b in between
    requires forall b :: b in bs ==> between[b] == if before[b] == ACTIVE then INACTIVE else before[b]
    ensures EventsFor(bs, between, {INACTIVE}, Cleanup) == EventsFor(bs, before, {ACTIVE, INACTIVE}, Cleanup)
  {
    if bs != [] {
      SameCleanups(bs[..|bs| - 1], before, between);
    }
  }

  /** The prototypes keep their order and nothing else is kept. */
  lemma {:induction false} ProtosAreAll(bs: seq<Block>, b: Block)
    ensures b in Protos(bs) <==> b in bs && b.proto
  {
    if bs != [] {
      ProtosAreAll(bs[..|bs| - 1], b);
      assert bs == bs[..|bs| - 1] + [bs[|bs| - 1]];
    }
  }
}
