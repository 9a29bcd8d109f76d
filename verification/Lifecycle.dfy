/** Block lifecycle: which sequences of hook calls are possible, and how a node takes all its blocks down. */
module Lifecycle {
  import opened Common

  datatype BlockState = PREINIT | INACTIVE | ACTIVE
  datatype BlockType = COMPUTATION | INTERACTION
  datatype Hook = Init | Start | Step | Stop | Cleanup

  const EWRONG_STATE: int := -1
  const EINVALID_BLOCK_TYPE: int := -2
  const ENOSUCHENT: int := -3

  /** What a successful call does to the state, where it is allowed. */
  function After(s: BlockState, h: Hook): Option<BlockState> {
    match (s, h)
    case (PREINIT, Init) => Some(INACTIVE)
    case (INACTIVE, Start) => Some(ACTIVE)
    case (ACTIVE, Step) => Some(ACTIVE)
    case (ACTIVE, Stop) => Some(INACTIVE)
    case (INACTIVE, Cleanup) => Some(PREINIT)
    case _ => None
  }

  function RunFrom(s: BlockState, hs: seq<Hook>): Option<BlockState> {
    if hs == [] then Some(s)
    else match RunFrom(s, hs[..|hs| - 1]) case None => None case Some(t) => After(t, hs[|hs| - 1])
  }

  // The language (init (start step* stop)* cleanup)*

  function StepsOf(n: nat): seq<Hook> {
    seq(n, _ => Step)
  }

  function RunsOf(runs: seq<nat>): seq<Hook> {
    if runs == [] then [] else RunsOf(runs[..|runs| - 1]) + [Start] + StepsOf(runs[|runs| - 1]) + [Stop]
  }

  /** The calls of complete lives, each given by the numbers of steps between its starts and stops. */
  function LivesOf(lives: seq<seq<nat>>): seq<Hook> {
    if lives == [] then [] else LivesOf(lives[..|lives| - 1]) + [Init] + RunsOf(lives[|lives| - 1]) + [Cleanup]
  }

  /** Complete lives followed by an unfinished one, in each state. */
  function Unfinished(s: BlockState, lives: seq<seq<nat>>, runs: seq<nat>, n: nat): seq<Hook> {
    match s
    case PREINIT => LivesOf(lives)
    case INACTIVE => LivesOf(lives) + [Init] + RunsOf(runs)
    case ACTIVE => LivesOf(lives) + [Init] + RunsOf(runs) + [Start] + StepsOf(n)
  }

  lemma Assoc(a: seq<Hook>, b: seq<Hook>, c: seq<Hook>, d: seq<Hook>, e: seq<Hook>)
    ensures a + (b + c + d + e) == a + b + c + d + e
  {
  }

  /** Each call extends what it finds. */
  lemma CallExtends(s: BlockState, h: Hook, lives: seq<seq<nat>>, runs: seq<nat>, n: nat)
    requires After(s, h).Some?
    ensures var hs := Unfinished(s, lives, runs, n) + [h];
            hs == match h
                  case Init => Unfinished(INACTIVE, lives, [], 0)
                  case Start => Unfinished(ACTIVE, lives, runs, 0)
                  case Step => Unfinished(ACTIVE, lives, runs, n + 1)
                  case Stop => Unfinished(INACTIVE, lives, runs + [n], 0)
                  case Cleanup => Unfinished(PREINIT, lives + [runs], [], 0)
  {
    match h
    case Init => EmptyAfter(LivesOf(lives) + [Init]);
    case Start => EmptyAfter(LivesOf(lives) + [Init] + RunsOf(runs) + [Start]);
    case Step => OneMoreStep(LivesOf(lives) + [Init] + RunsOf(runs) + [Start], n);
    case Stop =>
      assert (runs + [n])[..|runs|] == runs;
      Assoc(LivesOf(lives) + [Init], RunsOf(runs), [Start], StepsOf(n), [Stop]);
    case Cleanup =>
      assert (lives + [runs])[..|lives|] == lives;
  }

  lemma EmptyAfter(a: seq<Hook>)
    ensures a + RunsOf([]) == a + StepsOf(0) == a
  {
  }

  lemma OneMoreStep(a: seq<Hook>, n: nat)
    ensures a + StepsOf(n) + [Step] == a + StepsOf(n + 1)
  {
  }

  lemma {:induction false} Shape(hs: seq<Hook>) returns (lives: seq<seq<nat>>, runs: seq<nat>, n: nat)
    requires RunFrom(PREINIT, hs).Some?
    ensures hs == Unfinished(RunFrom(PREINIT, hs).value, lives, runs, n)
  {
    if hs == [] {
      lives, runs, n := [], [], 0;
    } else {
      hide Unfinished;
      var rest, h := hs[..|hs| - 1], hs[|hs| - 1];
      lives, runs, n := Shape(rest);
      CallExtends(RunFrom(PREINIT, rest).value, h, lives, runs, n);
      assert hs == rest + [h];
      match h
      case Init => runs, n := [], 0;
      case Start => n := 0;
      case Step => n := n + 1;
      case Stop => runs, n := runs + [n], 0;
      case Cleanup => lives, runs, n := lives + [runs], [], 0;
    }
  }

  /** Every possible sequence of calls is a prefix of a word of the language. */
  lemma PossibleIsPrefix(hs: seq<Hook>)
    requires RunFrom(PREINIT, hs).Some?
    ensures exists lives :: hs <= LivesOf(lives)
  {
    hide LivesOf, RunsOf, StepsOf, RunFrom;
    var lives, runs, n := Shape(hs);
    var s := RunFrom(PREINIT, hs).value;
    if s == ACTIVE {
      CallExtends(ACTIVE, Stop, lives, runs, n);
      CallExtends(INACTIVE, Cleanup, lives, runs + [n], 0);
      assert hs + [Stop] + [Cleanup] == LivesOf(lives + [runs + [n]]);
    } else if s == INACTIVE {
      CallExtends(INACTIVE, Cleanup, lives, runs, n);
      assert hs + [Cleanup] == LivesOf(lives + [runs]);
    } else {
      assert hs == LivesOf(lives);
    }
  }

  lemma {:induction false} RunAppend(s: BlockState, a: seq<Hook>, b: seq<Hook>)
    ensures RunFrom(s, a + b) == match RunFrom(s, a) case None => None case Some(t) => RunFrom(t, b)
  {
    if b == [] {
      assert a + b == a;
    } else {
      assert (a + b)[..|a + b| - 1] == a + b[..|b| - 1];
      RunAppend(s, a, b[..|b| - 1]);
    }
  }

  lemma {:induction false} StepsRun(n: nat)
    ensures RunFrom(ACTIVE, StepsOf(n)) == Some(ACTIVE)
  {
    if n > 0 {
      StepsRun(n - 1);
      assert StepsOf(n)[..n - 1] == StepsOf(n - 1);
    }
  }

  lemma One(s: BlockState, h: Hook)
    ensures RunFrom(s, [h]) == After(s, h)
  {
    assert [h][..0] == [];
  }

  lemma {:induction false} RunsRun(runs: seq<nat>)
    ensures RunFrom(INACTIVE, RunsOf(runs)) == Some(INACTIVE)
  {
    if runs != [] {
      var rest, n := runs[..|runs| - 1], runs[|runs| - 1];
      RunsRun(rest);
      StepsRun(n);
      One(INACTIVE, Start);
      One(ACTIVE, Stop);
      RunAppend(INACTIVE, RunsOf(rest), [Start]);
      RunAppend(INACTIVE, RunsOf(rest) + [Start], StepsOf(n));
      RunAppend(INACTIVE, RunsOf(rest) + [Start] + StepsOf(n), [Stop]);
    }
  }

  lemma {:induction false} LivesRun(lives: seq<seq<nat>>)
    ensures RunFrom(PREINIT, LivesOf(lives)) == Some(PREINIT)
  {
    if lives != [] {
      var rest, runs := lives[..|lives| - 1], lives[|lives| - 1];
      LivesRun(rest);
      RunsRun(runs);
      One(PREINIT, Init);
      One(INACTIVE, Cleanup);
      RunAppend(PREINIT, LivesOf(rest), [Init]);
      RunAppend(PREINIT, LivesOf(rest) + [Init], RunsOf(runs));
      RunAppend(PREINIT, LivesOf(rest) + [Init] + RunsOf(runs), [Cleanup]);
    }
  }

  /** The possible sequences of calls are exactly the prefixes of (init (start step* stop)* cleanup)*. */
  lemma PossibleIffPrefix(hs: seq<Hook>)
    ensures RunFrom(PREINIT, hs).Some? <==> exists lives :: hs <= LivesOf(lives)
  {
    if RunFrom(PREINIT, hs).Some? {
      PossibleIsPrefix(hs);
    }
    if exists lives :: hs <= LivesOf(lives) {
      var lives :| hs <= LivesOf(lives);
      LivesRun(lives);
      assert LivesOf(lives) == hs + LivesOf(lives)[|hs|..];
      RunAppend(PREINIT, hs, LivesOf(lives)[|hs|..]);
    }
  }

  /** A block. `calls` are its successful lifecycle calls; a missing hook counts as one that succeeds. */
  class Block {
    const name: string
    const proto: bool
    const btype: BlockType
    const hasStep: bool
    var state: BlockState
    var numSteps: nat
    ghost var calls: seq<Hook>

    ghost predicate Valid()
      reads this
    {
      RunFrom(PREINIT, calls) == Some(state)
    }

    ghost predicate Did(was: seq<Hook>, h: Hook)
      reads this
    {
      calls == was + [h]
    }

    constructor (name: string, proto: bool, btype: BlockType, hasStep: bool)
      ensures Valid() && state == PREINIT && calls == [] && numSteps == 0
      ensures this.name == name && this.proto == proto && this.btype == btype && this.hasStep == hasStep
    {
      this.name, this.proto, this.btype, this.hasStep := name, proto, btype, hasStep;
      state, numSteps, calls := PREINIT, 0, [];
    }

    ghost method Record(h: Hook)
      requires RunFrom(PREINIT, calls).Some? && After(RunFrom(PREINIT, calls).value, h) == Some(state)
      modifies this`calls
      ensures Valid() && Did(old(calls), h)
    {
      assert (calls + [h])[..|calls|] == calls;
      calls := calls + [h];
    }

    /** checkRet and hookRet are what the checks of the configuration and the hook return. */
    method BlockInit(checkRet: int, hookRet: int) returns (ret: int)
      requires Valid()
      modifies this`state, this`calls
      ensures Valid()
      ensures ret == 0 <==> old(state) == PREINIT && checkRet >= 0 && hookRet == 0
      ensures if ret == 0 then Did(old(calls), Init) else state == old(state) && calls == old(calls)
    {
      if state != PREINIT {
        return EWRONG_STATE;
      }
      if checkRet < 0 {
        return checkRet;
      }
      if hookRet != 0 {
        return hookRet;
      }
      state := INACTIVE;
      Record(Init);
      ret := 0;
    }

    method BlockStart(checkRet: int, hookRet: int) returns (ret: int)
      requires Valid()
      modifies this`state, this`calls
      ensures Valid()
      ensures ret == 0 <==> old(state) == INACTIVE && checkRet >= 0 && hookRet == 0
      ensures if ret == 0 then Did(old(calls), Start) else state == old(state) && calls == old(calls)
    {
      if state != INACTIVE {
        return EWRONG_STATE;
      }
      if checkRet < 0 {
        return checkRet;
      }
      state := ACTIVE;
      if hookRet != 0 {
        state := INACTIVE;
        return hookRet;
      }
      Record(Start);
      ret := 0;
    }

    method BlockStop() returns (ret: int)
      requires Valid()
      modifies this`state, this`calls
      ensures Valid()
      ensures ret == 0 <==> old(state) == ACTIVE
      ensures ret == 0 ==> Did(old(calls), Stop) && state == INACTIVE
      ensures ret != 0 ==> state == old(state) && calls == old(calls)
    {
      if state != ACTIVE {
        return EWRONG_STATE;
      }
      state := INACTIVE;
      Record(Stop);
      ret := 0;
    }

    method BlockCleanup() returns (ret: int)
      requires Valid()
      modifies this`state, this`calls
      ensures Valid()
      ensures ret == 0 <==> old(state) == INACTIVE
      ensures ret == 0 ==> Did(old(calls), Cleanup) && state == PREINIT
      ensures ret != 0 ==> state == old(state) && calls == old(calls)
    {
      if state != INACTIVE {
        return EWRONG_STATE;
      }
      state := PREINIT;
      Record(Cleanup);
      ret := 0;
    }

    method CblockStep() returns (ret: int)
      requires Valid()
      modifies this`numSteps, this`calls
      ensures Valid() && state == old(state)
      ensures ret == 0 <==> btype == COMPUTATION && old(state) == ACTIVE
      ensures if ret == 0 then Did(old(calls), Step) else calls == old(calls)
      ensures numSteps == old(numSteps) + if ret == 0 && hasStep then 1 else 0
    {
      if btype != COMPUTATION {
        return EINVALID_BLOCK_TYPE;
      }
      if state != ACTIVE {
        return EWRONG_STATE;
      }
      if hasStep {
        numSteps := numSteps + 1;
      }
      Record(Step);
      ret := 0;
    }
  }
}
