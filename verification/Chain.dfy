/** Trigger chains: which blocks are stepped how often, and which of the runs are measured. */
module Chain {
  import opened Common
  import opened Timespec
  import opened Tstat
  import DivMod

  /** The trigger counter has 32 bits. */
  function Wrap(n: nat): nat {
    n % WORD
  }

  /** One entry of a chain. A block is named by a number. */
  datatype Triggee = Triggee(b: nat, every: nat, steps: int)

  /** One attempt to step the block of a triggee, and whether it succeeded. */
  datatype Attempt = Attempt(triggee: nat, ok: bool)

  /** What the chain cannot influence: the outcome of the k-th attempt ever made and the k-th clock reading in ns. */
  datatype Env = Env(outcome: nat -> bool, clock: nat -> int)

  /** The changing part of a chain, with all attempts made and the number of clock readings taken. */
  datatype State = State(trace: seq<Attempt>, count: nat, skip: nat, global: Stat, blk: seq<Stat>, ticks: nat)

  datatype Mode = Disabled | Global | PerBlock | Invalid

  /** Steps the block of triggee i up to n times, giving up at the first failure. */
  function StepSingle(e: Env, trace: seq<Attempt>, i: nat, n: int): seq<Attempt>
    decreases n
  {
    if n <= 0 then trace
    else if e.outcome(|trace|) then StepSingle(e, trace + [Attempt(i, true)], i, n - 1)
    else trace + [Attempt(i, false)]
  }

  predicate IsDue(t: Triggee, count: nat)
    requires t.every > 0
  {
    count % t.every == 0
  }

  ghost predicate Ready(ts: seq<Triggee>) {
    forall i :: 0 <= i < |ts| ==> ts[i].every > 0
  }

  /** The attempts of one trigger, after the first k triggees. */
  ghost function StepAll(e: Env, ts: seq<Triggee>, trace: seq<Attempt>, count: nat, k: nat): seq<Attempt>
    requires Ready(ts) && k <= |ts|
  {
    if k == 0 then trace
    else
      var t := StepAll(e, ts, trace, count, k - 1);
      if IsDue(ts[k - 1], count) then StepSingle(e, t, k - 1, ts[k - 1].steps) else t
  }

  /** Steps a due triggee between two clock readings, which go into its statistic. */
  function Measured(e: Env, s: State, i: nat, steps: int): State
    requires i < |s.blk|
  {
    s.(trace := StepSingle(e, s.trace, i, steps),
       blk := s.blk[i := Updated(s.blk[i], e.clock(s.ticks + 1) - e.clock(s.ticks))],
       ticks := s.ticks + 2)
  }

  /** The attempts of one trigger with per-block measurements, after the first k triggees. */
  ghost function MeasureAll(e: Env, ts: seq<Triggee>, s: State, k: nat): (s': State)
    requires Ready(ts) && k <= |ts| == |s.blk|
    ensures |s'.blk| == |s.blk| && s'.count == s.count && s'.skip == s.skip && s'.global == s.global
    decreases k
  {
    if k == 0 then s
    else
      var u := MeasureAll(e, ts, s, k - 1);
      if IsDue(ts[k - 1], s.count) then Measured(e, u, k - 1, ts[k - 1].steps) else u
  }

  /** One trigger of the chain in the given mode. */
  ghost function Trigger(e: Env, ts: seq<Triggee>, mode: Mode, s: State): State
    requires Ready(ts) && |ts| == |s.blk|
  {
    var plain := s.(trace := StepAll(e, ts, s.trace, s.count, |ts|));
    var next :=
      if s.skip > 0 then plain.(skip := s.skip - 1)
      else match mode
        case Disabled => plain
        case Global =>
          plain.(global := Updated(s.global, e.clock(s.ticks + 1) - e.clock(s.ticks)), ticks := s.ticks + 2)
        case PerBlock =>
          var u := MeasureAll(e, ts, s.(ticks := s.ticks + 1), |ts|);
          u.(global := Updated(s.global, e.clock(u.ticks) - e.clock(s.ticks)), ticks := u.ticks + 1)
        case Invalid => s;
    next.(count := Wrap(s.count + 1))
  }

  /** A chain in memory, in the surroundings e. */
  class ChainBuf {
    const e: Env
    var triggees: seq<Triggee>
    var mode: Mode
    var skip: nat
    var count: nat
    var global: Stat
    var blk: seq<Stat>
    var trace: seq<Attempt>
    var ticks: nat

    ghost predicate Valid()
      reads this
    {
      Ready(triggees) && |blk| == |triggees|
    }

    ghost function Value(): State
      reads this
    {
      State(trace, count, skip, global, blk, ticks)
    }

    /** The configuration of a start: unset fields of every triggee become 1. */
    constructor (e: Env, triggees: seq<Triggee>, mode: Mode, skip: nat)
      ensures Valid()
      ensures this.e == e && this.mode == mode
      ensures Value() == State([], 0, skip, FRESH, seq(|triggees|, _ => FRESH), 0)
      ensures |this.triggees| == |triggees|
      ensures forall i :: 0 <= i < |triggees| ==>
                var t, u := triggees[i], this.triggees[i];
                u.b == t.b && u.every == (if t.every == 0 then 1 else t.every) &&
                u.steps == if t.steps == 0 then 1 else t.steps
    {
      this.e, this.mode, this.skip := e, mode, skip;
      global, blk := FRESH, seq(|triggees|, _ => FRESH);
      count, trace, ticks := 0, [], 0;
      this.triggees := triggees;
      new;
      for i := 0 to |triggees|
        invariant this.mode == mode && |this.triggees| == |triggees| && this.triggees[i..] == triggees[i..]
        invariant Value() == State([], 0, skip, FRESH, seq(|triggees|, _ => FRESH), 0)
        invariant forall j :: 0 <= j < i ==>
                    var t, u := triggees[j], this.triggees[j];
                    u.every > 0 && u.b == t.b && u.every == (if t.every == 0 then 1 else t.every) &&
                    u.steps == if t.steps == 0 then 1 else t.steps
      {
        var t := this.triggees[i];
        assert t == this.triggees[i..][0];
        t := t.(steps := if t.steps == 0 then 1 else t.steps, every := if t.every == 0 then 1 else t.every);
        this.triggees := this.triggees[i := t];
      }
    }

    /** The caller's steps, one by one. */
    method TrigSingle(i: nat) returns (ret: int)
      requires Valid() && i < |triggees|
      modifies this`trace
      ensures trace == StepSingle(e, old(trace), i, triggees[i].steps)
      ensures ret == 0 <==> forall k :: |old(trace)| <= k < |trace| ==> trace[k].ok
      ensures old(trace) <= trace
    {
      ret := 0;
      var steps := 0;
      while steps < triggees[i].steps
        invariant 0 <= steps && old(trace) <= trace
        invariant forall k :: |old(trace)| <= k < |trace| ==> trace[k].ok
        invariant StepSingle(e, old(trace), i, triggees[i].steps) ==
                  StepSingle(e, trace, i, triggees[i].steps - steps)
      {
        var ok := e.outcome(|trace|);
        trace := trace + [Attempt(i, ok)];
        if !ok {
          ret := -1;
          assert !trace[|trace| - 1].ok;
          return;
        }
        steps := steps + 1;
      }
    }

    method TrigDisabled() returns (ret: int)
      requires Valid()
      modifies this`trace
      ensures trace == StepAll(e, triggees, old(trace), count, |triggees|)
      ensures ret == 0 <==> forall k :: |old(trace)| <= k < |trace| ==> trace[k].ok
      ensures old(trace) <= trace
    {
      ret := 0;
      var i := 0;
      while i < |triggees|
        invariant i <= |triggees| && old(trace) <= trace
        invariant trace == StepAll(e, triggees, old(trace), count, i)
        invariant ret == 0 <==> forall k :: |old(trace)| <= k < |trace| ==> trace[k].ok
      {
        if count % triggees[i].every == 0 {
          var r := TrigSingle(i);
          if r != 0 {
            ret := -1;
          }
        }
        i := i + 1;
      }
    }

    method TrigGlobal() returns (ret: int)
      requires Valid()
      modifies this`trace, this`global, this`ticks
      ensures Value() == old(Value().(trace := StepAll(e, triggees, trace, count, |triggees|),
                                      global := Updated(global, e.clock(ticks + 1) - e.clock(ticks)),
                                      ticks := ticks + 2))
      ensures old(trace) <= trace
      ensures ret == 0 <==> forall k :: |old(trace)| <= k < |trace| ==> trace[k].ok
    {
      hide Updated, StepSingle;
      var start := e.clock(ticks);
      ticks := ticks + 1;
      ret := 0;
      var i := 0;
      while i < |triggees|
        invariant i <= |triggees| && old(trace) <= trace
        invariant trace == StepAll(e, triggees, old(trace), count, i)
        invariant ticks == old(ticks) + 1 && global == old(global)
        invariant ret == 0 <==> forall k :: |old(trace)| <= k < |trace| ==> trace[k].ok
      {
        if count % triggees[i].every == 0 {
          var r := TrigSingle(i);
          if r != 0 {
            ret := -1;
          }
        }
        i := i + 1;
      }
      var end := e.clock(ticks);
      ticks := ticks + 1;
      global := Updated(global, end - start);
    }

    method TrigMeasured(i: nat) returns (ret: int)
      requires Valid() && i < |triggees|
      modifies this`trace, this`blk, this`ticks
      ensures Valid() && Value() == Measured(e, old(Value()), i, triggees[i].steps)
      ensures old(trace) <= trace
      ensures ret == 0 <==> forall k :: |old(trace)| <= k < |trace| ==> trace[k].ok
    {
      hide Updated, StepSingle;
      var blkStart := e.clock(ticks);
      ticks := ticks + 1;
      ret := TrigSingle(i);
      var blkEnd := e.clock(ticks);
      ticks := ticks + 1;
      blk := blk[i := Updated(blk[i], blkEnd - blkStart)];
    }

    method TrigPerBlock() returns (ret: int)
      requires Valid()
      modifies this`trace, this`global, this`blk, this`ticks
      ensures Valid()
      ensures Value() == old(var u := MeasureAll(e, triggees, Value().(ticks := ticks + 1), |triggees|);
                             u.(global := Updated(global, e.clock(u.ticks) - e.clock(ticks)), ticks := u.ticks + 1))
      ensures old(trace) <= trace
      ensures ret == 0 <==> forall k :: |old(trace)| <= k < |trace| ==> trace[k].ok
    {
      hide Updated, Measured;
      ghost var s0 := Value().(ticks := ticks + 1);
      var start := e.clock(ticks);
      ticks := ticks + 1;
      ret := 0;
      var i := 0;
      while i < |triggees|
        invariant i <= |triggees| == |blk| && old(trace) <= trace
        invariant Value() == MeasureAll(e, triggees, s0, i)
        invariant ret == 0 <==> forall k :: |old(trace)| <= k < |trace| ==> trace[k].ok
      {
        if count % triggees[i].every == 0 {
          var r := TrigMeasured(i);
          if r != 0 {
            ret := -1;
          }
        }
        i := i + 1;
      }
      var end := e.clock(ticks);
      ticks := ticks + 1;
      global := Updated(global, end - start);
    }

    /** Triggers the chain; the result reports whether any step failed. */
    method ChainTrigger() returns (ret: int)
      requires Valid()
      modifies this`trace, this`global, this`blk, this`ticks, this`skip, this`count
      ensures Valid() && Value() == Trigger(e, triggees, mode, old(Value()))
      ensures old(trace) <= trace
      ensures old(skip) > 0 || mode != Invalid ==>
                (ret == 0 <==> forall k :: |old(trace)| <= k < |trace| ==> trace[k].ok)
    {
      hide Updated, StepAll, MeasureAll;
      if skip > 0 {
        skip := skip - 1;
        ret := TrigDisabled();
      } else {
        match mode
        case Disabled => ret := TrigDisabled();
        case Global => ret := TrigGlobal();
        case PerBlock => ret := TrigPerBlock();
        case Invalid => ret := -1;
      }
      count := Wrap(count + 1);
    }
  }

  /** How many attempts were made for triggee i. */
  function Count(trace: seq<Attempt>, i: nat): nat {
    if trace == [] then 0
    else Count(trace[..|trace| - 1], i) + if trace[|trace| - 1].triggee == i then 1 else 0
  }

  lemma CountSnoc(trace: seq<Attempt>, a: Attempt, i: nat)
    ensures Count(trace + [a], i) == Count(trace, i) + if a.triggee == i then 1 else 0
  {
    assert (trace + [a])[..|trace|] == trace;
  }

  function Max0(n: int): nat {
    if n > 0 then n else 0
  }

  /** A triggee's attempts: as many as configured, or fewer with the last one failing; nobody else's. */
  lemma {:induction false} SingleCounts(e: Env, trace: seq<Attempt>, i: nat, n: int, j: nat)
    ensures var t := StepSingle(e, trace, i, n);
            && trace <= t
            && (j != i ==> Count(t, j) == Count(trace, j))
            && Count(t, i) <= Count(trace, i) + Max0(n)
            && (n > 0 ==> Count(t, i) > Count(trace, i) && |t| > |trace|)
            && (Count(t, i) == Count(trace, i) + Max0(n) || t[|t| - 1] == Attempt(i, false))
    decreases n
  {
    if n > 0 {
      var ok := e.outcome(|trace|);
      CountSnoc(trace, Attempt(i, ok), i);
      CountSnoc(trace, Attempt(i, ok), j);
      if ok {
        SingleCounts(e, trace + [Attempt(i, true)], i, n - 1, j);
      }
    }
  }

  lemma {:induction false} SingleSucceeds(e: Env, trace: seq<Attempt>, i: nat, n: int)
    requires forall k :: e.outcome(k)
    ensures Count(StepSingle(e, trace, i, n), i) == Count(trace, i) + Max0(n)
    decreases n
  {
    if n > 0 {
      CountSnoc(trace, Attempt(i, true), i);
      SingleSucceeds(e, trace + [Attempt(i, true)], i, n - 1);
    }
  }

  /** Whatever fails before it, a due triggee is attempted; one that is not due is left alone. */
  lemma {:induction false} FailureStopsNoOther(
      e: Env, ts: seq<Triggee>, trace: seq<Attempt>, count: nat, k: nat, i: nat)
    requires Ready(ts) && k <= |ts| && i < |ts|
    ensures var t := StepAll(e, ts, trace, count, k);
            && trace <= t
            && (!(i < k && IsDue(ts[i], count)) ==> Count(t, i) == Count(trace, i))
            && (i < k && IsDue(ts[i], count) ==>
                  && Count(trace, i) + (if ts[i].steps > 0 then 1 else 0) <= Count(t, i)
                  && Count(t, i) <= Count(trace, i) + Max0(ts[i].steps))
            && ((forall a :: e.outcome(a)) && i < k && IsDue(ts[i], count) ==>
                  Count(t, i) == Count(trace, i) + Max0(ts[i].steps))
    decreases k
  {
    if k > 0 {
      FailureStopsNoOther(e, ts, trace, count, k - 1, i);
      var t := StepAll(e, ts, trace, count, k - 1);
      SingleCounts(e, t, k - 1, ts[k - 1].steps, i);
      if forall a :: e.outcome(a) {
        SingleSucceeds(e, t, k - 1, ts[k - 1].steps);
      }
    }
  }

  /** Measuring each block does not change which steps are made. */
  lemma {:induction false} SameTrace(e: Env, ts: seq<Triggee>, s: State, k: nat)
    requires Ready(ts) && k <= |ts| == |s.blk|
    ensures MeasureAll(e, ts, s, k).trace == StepAll(e, ts, s.trace, s.count, k)
    decreases k
  {
    if k > 0 {
      SameTrace(e, ts, s, k - 1);
    }
  }

  /** From a common state, one trigger makes the same attempts in all valid modes. */
  lemma ModesAgree(e: Env, ts: seq<Triggee>, m: Mode, s: State)
    requires Ready(ts) && |ts| == |s.blk| && m != Invalid
    ensures Trigger(e, ts, m, s).trace == Trigger(e, ts, Disabled, s).trace ==
            StepAll(e, ts, s.trace, s.count, |ts|)
  {
    SameTrace(e, ts, s.(ticks := s.ticks + 1), |ts|);
  }

  /** n triggers in a row. */
  ghost function Triggers(e: Env, ts: seq<Triggee>, m: Mode, s: State, n: nat): (s': State)
    requires Ready(ts) && |ts| == |s.blk|
    ensures |s'.blk| == |ts|
  {
    if n == 0 then s else Trigger(e, ts, m, Triggers(e, ts, m, s, n - 1))
  }

  /** Whether trigger number n, counted from 0, is due. */
  predicate DueAt(n: nat, every: nat)
    requires every > 0
  {
    Wrap(n) % every == 0
  }

  /** How many of the first n triggers a triggee is due at. */
  function Due(n: nat, every: nat): nat
    requires every > 0
  {
    if n == 0 then 0 else Due(n - 1, every) + if DueAt(n - 1, every) then 1 else 0
  }

  /** n / every rounded up. */
  function Ceil(n: nat, every: nat): nat
    requires every > 0
  {
    n / every + if n % every == 0 then 0 else 1
  }

  lemma CeilStep(n: nat, every: nat)
    requires every > 0
    ensures Ceil(n + 1, every) == Ceil(n, every) + if n % every == 0 then 1 else 0
  {
    DivMod.Succ(n, every);
    if every == 1 {
      DivMod.Unique(n, 1, n, 0);
    }
  }

  /** Up to 2^32 triggers the schedule is exactly every every-th trigger, counted from the first. */
  lemma {:induction false} DueIsCeil(n: nat, every: nat)
    requires every > 0 && n <= WORD
    ensures Due(n, every) == Ceil(n, every)
  {
    CeilZero(every);
    if n > 0 {
      DueIsCeil(n - 1, every);
      CeilStep(n - 1, every);
      DivMod.Unique(n - 1, WORD, 0, n - 1);
    }
  }

  /** Then the counter starts over, and the schedule with it. */
  lemma {:induction false} DueRestarts(n: nat, every: nat)
    requires every > 0
    ensures Due(WORD + n, every) == Ceil(WORD, every) + Due(n, every)
  {
    hide Ceil, DueAt;
    if n == 0 {
      DueIsCeil(WORD, every);
    } else {
      DueRestarts(n - 1, every);
      DuePeriodic(n - 1, every);
      assert WORD + n - 1 == WORD + (n - 1);
    }
  }

  lemma DuePeriodic(n: nat, every: nat)
    requires every > 0
    ensures DueAt(WORD + n, every) == DueAt(n, every)
  {
    DivMod.AddRounds(n, 1, WORD);
  }

  lemma CeilZero(every: nat)
    requires every > 0
    ensures Ceil(0, every) == 0
  {
    DivMod.Unique(0, every, 0, 0);
  }

  /** What one trigger does to the counters. */
  lemma TriggerCounts(e: Env, ts: seq<Triggee>, m: Mode, s: State, i: nat)
    requires Ready(ts) && |ts| == |s.blk| && m != Invalid && i < |ts|
    ensures var s' := Trigger(e, ts, m, s);
            var due := IsDue(ts[i], s.count);
            && s'.count == Wrap(s.count + 1) && s'.skip == Max0(s.skip - 1)
            && s'.blk[i].cnt == s.blk[i].cnt + (if s.skip == 0 && m == PerBlock && due then 1 else 0)
            && (!due ==> Count(s'.trace, i) == Count(s.trace, i))
            && (due && (forall a :: e.outcome(a)) ==> Count(s'.trace, i) == Count(s.trace, i) + Max0(ts[i].steps))
  {
    ModesAgree(e, ts, m, s);
    FailureStopsNoOther(e, ts, s.trace, s.count, |ts|, i);
    SampleCounts(e, ts, s.(ticks := s.ticks + 1), |ts|, i);
  }

  lemma {:induction false} SampleCounts(e: Env, ts: seq<Triggee>, s: State, k: nat, i: nat)
    requires Ready(ts) && k <= |ts| == |s.blk| && i < |ts|
    ensures MeasureAll(e, ts, s, k).blk[i].cnt ==
            s.blk[i].cnt + if i < k && IsDue(ts[i], s.count) then 1 else 0
    decreases k
  {
    if k > 0 {
      SampleCounts(e, ts, s, k - 1, i);
    }
  }

  lemma WrapSucc(n: nat)
    ensures Wrap(Wrap(n) + 1) == Wrap(n + 1)
  {
    DivMod.AddRounds(Wrap(n) + 1, n / WORD, WORD);
  }

  lemma WrapZero()
    ensures Wrap(0) == 0
  {
  }

  lemma LessOne(skip: nat, n: int)
    ensures Max0(skip) == skip
    ensures Max0(Max0(skip - n) - 1) == Max0(skip - (n + 1))
  {
  }

  lemma {:induction false} Counters(e: Env, ts: seq<Triggee>, m: Mode, s: State, n: nat)
    requires Ready(ts) && |ts| == |s.blk| && m != Invalid && s.count == 0
    ensures var s' := Triggers(e, ts, m, s, n);
            s'.count == Wrap(n) && s'.skip == Max0(s.skip - n)
  {
    hide Trigger, Wrap, Max0, Ready;
    WrapZero();
    LessOne(s.skip, n - 1);
    if n > 0 {
      Counters(e, ts, m, s, n - 1);
      WrapSucc(n - 1);
      TriggerCounters(e, ts, m, Triggers(e, ts, m, s, n - 1));
    }
  }

  lemma TriggerCounters(e: Env, ts: seq<Triggee>, m: Mode, s: State)
    requires Ready(ts) && |ts| == |s.blk| && m != Invalid
    ensures var s' := Trigger(e, ts, m, s);
            s'.count == Wrap(s.count + 1) && s'.skip == Max0(s.skip - 1)
  {
    hide StepAll, MeasureAll, Updated, Wrap;
  }

  /** However often it is triggered, a chain makes the same attempts in every valid mode, with the same counters. */
  lemma {:induction false} ModesAlwaysAgree(e: Env, ts: seq<Triggee>, m: Mode, m': Mode, s: State, n: nat)
    requires Ready(ts) && |ts| == |s.blk| && m != Invalid && m' != Invalid
    ensures var u, u' := Triggers(e, ts, m, s, n), Triggers(e, ts, m', s, n);
            u.trace == u'.trace && u.count == u'.count && u.skip == u'.skip
  {
    if n > 0 {
      hide Trigger, Ready;
      ModesAlwaysAgree(e, ts, m, m', s, n - 1);
      ModesAgreeOnce(e, ts, m, m', Triggers(e, ts, m, s, n - 1), Triggers(e, ts, m', s, n - 1));
    }
  }

  lemma ModesAgreeOnce(e: Env, ts: seq<Triggee>, m: Mode, m': Mode, u: State, u': State)
    requires Ready(ts) && |ts| == |u.blk| == |u'.blk| && m != Invalid && m' != Invalid
    requires u.trace == u'.trace && u.count == u'.count && u.skip == u'.skip
    ensures var v, v' := Trigger(e, ts, m, u), Trigger(e, ts, m', u');
            v.trace == v'.trace && v.count == v'.count && v.skip == v'.skip
  {
    hide Trigger, StepAll, Ready;
    ModesAgree(e, ts, m, u);
    ModesAgree(e, ts, m', u');
    TriggerCounters(e, ts, m, u);
    TriggerCounters(e, ts, m', u');
  }

  lemma TriggersStep(e: Env, ts: seq<Triggee>, m: Mode, s: State, n: nat)
    requires Ready(ts) && |ts| == |s.blk|
    ensures Triggers(e, ts, m, s, n + 1) == Trigger(e, ts, m, Triggers(e, ts, m, s, n))
    ensures Triggers(e, ts, m, s, 0) == s
  {
  }

  /** How often a triggee is stepped by n triggers. */
  function Steps(t: Triggee, n: nat): nat
    requires t.every > 0
  {
    Max0(t.steps) * Due(n, t.every)
  }

  lemma StepsStep(t: Triggee, n: nat)
    requires t.every > 0
    ensures Steps(t, 0) == 0
    ensures Steps(t, n + 1) == Steps(t, n) + if IsDue(t, Wrap(n)) then Max0(t.steps) else 0
  {
    hide Max0, Wrap;
    var x, y := Max0(t.steps), Due(n, t.every);
    assert x * (y + 1) == x * y + x;
  }

  lemma {:induction false} StepCount(e: Env, ts: seq<Triggee>, m: Mode, s: State, n: nat, i: nat)
    requires Ready(ts) && |ts| == |s.blk| && m != Invalid && i < |ts|
    requires s.count == 0 && s.trace == [] && forall a :: e.outcome(a)
    ensures Count(Triggers(e, ts, m, s, n).trace, i) == Steps(ts[i], n)
  {
    hide Max0, Steps, Wrap, IsDue, Triggers, Trigger;
    StepsStep(ts[i], if n > 0 then n - 1 else 0);
    TriggersStep(e, ts, m, s, if n > 0 then n - 1 else 0);
    if n > 0 {
      hide Count, Ready;
      StepCount(e, ts, m, s, n - 1, i);
      Counters(e, ts, m, s, n - 1);
      TriggerCounts(e, ts, m, Triggers(e, ts, m, s, n - 1), i);
    }
  }

  /** How often it is measured. */
  function Samples(t: Triggee, m: Mode, skip: nat, n: nat): int
    requires t.every > 0
  {
    if m == PerBlock then Due(n, t.every) - Due(if n < skip then n else skip, t.every) else 0
  }

  lemma SamplesStep(t: Triggee, m: Mode, skip: nat, n: nat)
    requires t.every > 0
    ensures Samples(t, m, skip, 0) == 0
    ensures Samples(t, m, skip, n + 1) ==
            Samples(t, m, skip, n) + if Max0(skip - n) == 0 && m == PerBlock && IsDue(t, Wrap(n)) then 1 else 0
  {
    hide Wrap;
  }

  lemma {:induction false} SampleCount(e: Env, ts: seq<Triggee>, m: Mode, s: State, n: nat, i: nat)
    requires Ready(ts) && |ts| == |s.blk| && m != Invalid && i < |ts|
    requires s.count == 0 && s.blk[i].cnt == 0
    ensures Triggers(e, ts, m, s, n).blk[i].cnt == Samples(ts[i], m, s.skip, n)
  {
    hide Max0, Samples, Wrap, IsDue, Triggers, Trigger;
    SamplesStep(ts[i], m, s.skip, if n > 0 then n - 1 else 0);
    TriggersStep(e, ts, m, s, if n > 0 then n - 1 else 0);
    if n > 0 {
      hide Count, Ready;
      SampleCount(e, ts, m, s, n - 1, i);
      Counters(e, ts, m, s, n - 1);
      TriggerCounts(e, ts, m, Triggers(e, ts, m, s, n - 1), i);
    }
  }

  /**
    * After n triggers of a fresh chain, for up to 2^32 of them: with successful steps triggee i was stepped steps
    * times at every every-th trigger, and in per-block mode it was measured at those of them after the first skip.
    */
  lemma ScheduleIsExact(e: Env, ts: seq<Triggee>, m: Mode, s: State, n: nat, i: nat)
    requires Ready(ts) && |ts| == |s.blk| && m != Invalid && i < |ts|
    requires s.count == 0 && s.trace == [] && s.blk[i].cnt == 0
    requires n <= WORD
    ensures var s' := Triggers(e, ts, m, s, n);
            var every := ts[i].every;
            && ((forall a :: e.outcome(a)) ==> Count(s'.trace, i) == Max0(ts[i].steps) * Ceil(n, every))
            && s'.blk[i].cnt == if m == PerBlock
                                then Ceil(n, every) - Ceil(if n < s.skip then n else s.skip, every)
                                else 0
  {
    hide Triggers, Due, Ceil, Max0, Count;
    if forall a :: e.outcome(a) {
      StepCount(e, ts, m, s, n, i);
    }
    SampleCount(e, ts, m, s, n, i);
    DueIsCeil(n, ts[i].every);
    DueIsCeil(if n < s.skip then n else s.skip, ts[i].every);
  }

  /** How many of n triggers go into the statistic of the whole chain. */
  function Measurements(m: Mode, skip: nat, n: nat): nat {
    if m == Global || m == PerBlock then n - (if n < skip then n else skip) else 0
  }

  /** In both modes that measure, every trigger after the skipped ones is one sample of the whole chain. */
  lemma {:induction false} GlobalCount(e: Env, ts: seq<Triggee>, m: Mode, s: State, n: nat)
    requires Ready(ts) && |ts| == |s.blk| && m != Invalid && s.count == 0 && s.global.cnt == 0
    ensures Triggers(e, ts, m, s, n).global.cnt == Measurements(m, s.skip, n)
  {
    if n > 0 {
      hide Trigger, Wrap, Ready;
      GlobalCount(e, ts, m, s, n - 1);
      Counters(e, ts, m, s, n - 1);
      GlobalSample(e, ts, m, Triggers(e, ts, m, s, n - 1));
    }
  }

  lemma GlobalSample(e: Env, ts: seq<Triggee>, m: Mode, s: State)
    requires Ready(ts) && |ts| == |s.blk| && m != Invalid
    ensures Trigger(e, ts, m, s).global.cnt ==
            s.global.cnt + if s.skip == 0 && (m == Global || m == PerBlock) then 1 else 0
  {
    hide StepAll, MeasureAll, Wrap;
  }

  /** The time that one trigger adds to the chain's total: from the first clock reading in it to the last. */
  lemma GlobalTime(e: Env, ts: seq<Triggee>, m: Mode, s: State)
    requires Ready(ts) && |ts| == |s.blk|
    ensures var s' := Trigger(e, ts, m, s);
            if s.skip == 0 && (m == Global || m == PerBlock)
            then s'.ticks > s.ticks + 1 &&
                 s'.global.total.Ns() == s.global.total.Ns() + e.clock(s'.ticks - 1) - e.clock(s.ticks)
            else s'.ticks == s.ticks && s'.global == s.global
  {
    hide StepAll, Wrap, Canon;
    TicksGrow(e, ts, s.(ticks := s.ticks + 1), |ts|);
    var u := MeasureAll(e, ts, s.(ticks := s.ticks + 1), |ts|);
    CanonIsNormal(s.global.total.Ns() + (e.clock(u.ticks) - e.clock(s.ticks)));
    CanonIsNormal(s.global.total.Ns() + (e.clock(s.ticks + 1) - e.clock(s.ticks)));
    hide MeasureAll;
  }

  lemma {:induction false} TicksGrow(e: Env, ts: seq<Triggee>, s: State, k: nat)
    requires Ready(ts) && k <= |ts| == |s.blk|
    ensures MeasureAll(e, ts, s, k).ticks >= s.ticks
    decreases k
  {
    if k > 0 {
      TicksGrow(e, ts, s, k - 1);
    }
  }

  function Totals(blk: seq<Stat>): int {
    if blk == [] then 0 else Totals(blk[..|blk| - 1]) + blk[|blk| - 1].total.Ns()
  }

  lemma {:induction false} TotalsUpdate(blk: seq<Stat>, i: nat, x: Stat)
    requires i < |blk|
    ensures Totals(blk[i := x]) == Totals(blk) - blk[i].total.Ns() + x.total.Ns()
  {
    var n := |blk| - 1;
    if i < n {
      TotalsUpdate(blk[..n], i, x);
      assert blk[i := x][..n] == blk[..n][i := x];
    } else {
      assert blk[i := x][..n] == blk[..n];
    }
  }

  ghost predicate Monotone(clock: nat -> int) {
    forall a: nat, b: nat :: a <= b ==> clock(a) <= clock(b)
  }

  lemma MeasuredTotal(e: Env, s: State, i: nat, steps: int)
    requires i < |s.blk|
    ensures Totals(Measured(e, s, i, steps).blk) == Totals(s.blk) + e.clock(s.ticks + 1) - e.clock(s.ticks)
  {
    hide StepSingle, Canon, Totals;
    var d := e.clock(s.ticks + 1) - e.clock(s.ticks);
    CanonIsNormal(s.blk[i].total.Ns() + d);
    TotalsUpdate(s.blk, i, Updated(s.blk[i], d));
  }

  lemma {:induction false} BlockTime(e: Env, ts: seq<Triggee>, s: State, k: nat)
    requires Ready(ts) && k <= |ts| == |s.blk| && Monotone(e.clock)
    ensures var u := MeasureAll(e, ts, s, k);
            s.ticks <= u.ticks && Totals(u.blk) - Totals(s.blk) <= e.clock(u.ticks) - e.clock(s.ticks)
    decreases k
  {
    hide StepSingle, Updated, Canon, Totals;
    if k > 0 {
      BlockTime(e, ts, s, k - 1);
      var u := MeasureAll(e, ts, s, k - 1);
      MeasuredTotal(e, u, k - 1, ts[k - 1].steps);
      assert e.clock(u.ticks + 1) <= e.clock(u.ticks + 2);
    }
  }

  /** On a monotone clock a measured trigger never adds more time to its blocks than it adds to the whole chain. */
  lemma BlocksWithinChain(e: Env, ts: seq<Triggee>, s: State)
    requires Ready(ts) && |ts| == |s.blk| && Monotone(e.clock) && s.skip == 0
    ensures var s' := Trigger(e, ts, PerBlock, s);
            Totals(s'.blk) - Totals(s.blk) <= s'.global.total.Ns() - s.global.total.Ns()
  {
    hide StepAll, MeasureAll, Canon, Totals;
    var s0 := s.(ticks := s.ticks + 1);
    BlockTime(e, ts, s0, |ts|);
    var u := MeasureAll(e, ts, s0, |ts|);
    CanonIsNormal(s.global.total.Ns() + e.clock(u.ticks) - e.clock(s.ticks));
    assert e.clock(s.ticks) <= e.clock(s0.ticks);
  }
}
