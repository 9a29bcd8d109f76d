/** The bounded queue through which the web server's listening thread hands sockets to its worker threads. */
module SockQueue {
  import opened Common

  type Socket = int
  type Worker = nat

  const SIZE: nat := 20

  /** The slots and the two indices; the slot of an index is its remainder. */
  datatype Ring = Ring(slots: seq<Socket>, head: int, tail: int) {

    predicate Valid() {
      |slots| == SIZE && 0 <= tail <= SIZE && tail <= head <= tail + SIZE
    }

    /** The queued sockets, oldest first; defined also before the indices are wrapped. */
    function Contents(): (c: seq<Socket>)
      requires |slots| == SIZE && 0 <= tail <= head
      ensures |c| == head - tail && forall i :: 0 <= i < |c| ==> c[i] == Slot(tail + i)
    {
      seq(head - tail, i requires 0 <= i < head - tail => Slot(tail + i))
    }

    function Slot(k: int): Socket
      requires |slots| == SIZE
    {
      slots[k % SIZE]
    }

    function Put(x: Socket): Ring
      requires Valid()
    {
      if head - tail < SIZE then Ring(slots[head % SIZE := x], head + 1, tail) else this
    }

    function Wrapped(): Ring
      decreases tail
    {
      if tail > SIZE then Ring(slots, head - SIZE, tail - SIZE).Wrapped() else this
    }

    function Take(): Ring
      requires Valid()
    {
      if head > tail then Ring(slots, head, tail + 1).Wrapped() else this
    }
  }

  lemma PutAppends(r: Ring, x: Socket)
    requires r.Valid()
    ensures r.Put(x).Valid()
    ensures r.Put(x).Contents() == if |r.Contents()| < SIZE then r.Contents() + [x] else r.Contents()
  {
    if r.head - r.tail < SIZE {
      PutSlots(r, x);
      hide Ring.Slot;
      var after := r.Put(x).Contents();
      forall i | 0 <= i < |r.Contents()|
        ensures after[i] == r.Contents()[i]
      {
        assert after[i] == r.Put(x).Slot(r.tail + i);
      }
      assert after[|r.Contents()|] == r.Put(x).Slot(r.head);
    }
  }

  lemma PutSlots(r: Ring, x: Socket)
    requires r.Valid() && r.head - r.tail < SIZE
    ensures r.Put(x).Slot(r.head) == x
    ensures forall k :: r.tail <= k < r.head ==> r.Put(x).Slot(k) == r.Slot(k)
  {
    forall k | r.tail <= k < r.head
      ensures r.Put(x).Slot(k) == r.Slot(k)
    {
      assert k % SIZE != r.head % SIZE;
    }
  }

  /** Taking 20 off both indices, as often as needed, leaves the queued sockets as they were. */
  lemma {:induction false} WrappedKeeps(r: Ring)
    requires |r.slots| == SIZE && 0 <= r.tail <= r.head
    ensures var w := r.Wrapped();
            && w.slots == r.slots && 0 <= w.tail <= SIZE && w.head - w.tail == r.head - r.tail
            && w.Contents() == r.Contents()
    decreases r.tail
  {
    if r.tail > SIZE {
      var less := Ring(r.slots, r.head - SIZE, r.tail - SIZE);
      SameContents(less, r);
      WrappedKeeps(less);
    }
  }

  lemma SlotShift(less: Ring, r: Ring, k: int)
    requires |r.slots| == SIZE && less.slots == r.slots
    ensures less.Slot(k) == r.Slot(k + SIZE)
  {
  }

  lemma SameContents(less: Ring, r: Ring)
    requires |r.slots| == SIZE && 0 <= less.tail <= less.head && less == Ring(r.slots, r.head - SIZE, r.tail - SIZE)
    ensures less.Contents() == r.Contents()
  {
    hide Ring.Slot;
    forall i | 0 <= i < |r.Contents()|
      ensures less.Contents()[i] == r.Contents()[i]
    {
      SlotShift(less, r, less.tail + i);
      assert less.Contents()[i] == less.Slot(less.tail + i);
      assert r.Contents()[i] == r.Slot(r.tail + i);
    }
  }

  lemma TakeRemoves(r: Ring)
    requires r.Valid()
    ensures r.Take().Valid()
    ensures r.Take().head - r.Take().tail == r.head - r.tail - if r.head > r.tail then 1 else 0
    ensures r.Take().Contents() == if |r.Contents()| > 0 then r.Contents()[1..] else r.Contents()
    ensures |r.Contents()| > 0 ==> r.Slot(r.tail) == r.Contents()[0]
  {
    if r.head > r.tail {
      var next := Ring(r.slots, r.head, r.tail + 1);
      WrappedKeeps(next);
      forall i | 0 <= i < |next.Contents()|
        ensures next.Contents()[i] == r.Contents()[i + 1]
      {
        assert r.Contents()[i + 1] == r.Slot(r.tail + (i + 1));
      }
    }
  }

  /** The shared fields. A method is one critical section, entered once its wait is over. */
  class Context {
    const queue: array<Socket>
    var sqHead: int
    var sqTail: int
    var stopFlag: bool

    ghost function View(): Ring
      reads this, queue
    {
      Ring(queue[..], sqHead, sqTail)
    }

    ghost predicate Valid()
      reads this, queue
    {
      View().Valid()
    }

    constructor ()
      ensures Valid() && fresh(queue) && !stopFlag && View().Contents() == []
    {
      queue := new Socket[SIZE];
      sqHead, sqTail, stopFlag := 0, 0, false;
    }

    /** Consumes the oldest socket; when stopping with an empty queue, sp stays what it was. */
    method ConsumeSocket(was: Socket) returns (goOn: bool, sp: Socket)
      requires Valid()
      requires sqHead != sqTail || stopFlag
      modifies this`sqHead, this`sqTail
      ensures Valid() && View() == old(View()).Take()
      ensures goOn == !stopFlag
      ensures var c := old(View().Contents());
              if c == [] then sp == was && View().Contents() == []
              else sp == c[0] && View().Contents() == c[1..]
    {
      TakeRemoves(View());
      sp := was;
      if sqHead > sqTail {
        sp := queue[sqTail % SIZE];
        sqTail := sqTail + 1;
        while sqTail > SIZE
          invariant View().Wrapped() == old(View()).Take()
        {
          sqTail := sqTail - SIZE;
          sqHead := sqHead - SIZE;
        }
      }
      goOn := !stopFlag;
    }

    /** Appends the socket; when stopping with a full queue, it is dropped. */
    method ProduceSocket(sp: Socket)
      requires Valid()
      requires sqHead - sqTail < SIZE || stopFlag
      modifies this`sqHead, queue
      ensures Valid() && View() == old(View()).Put(sp)
      ensures var c := old(View().Contents());
              View().Contents() == if |c| < SIZE then c + [sp] else c
      ensures !stopFlag ==> View().Contents() == old(View().Contents()) + [sp]
      ensures sqHead <= 2 * SIZE
    {
      PutAppends(View(), sp);
      if sqHead - sqTail < SIZE {
        queue[sqHead % SIZE] := sp;
        sqHead := sqHead + 1;
      }
    }
  }

  /** What becomes of a socket that a worker took: it handles it unless the stop flag is set when it leaves. */
  datatype Fate = Pending | Handled | Dropped

  datatype Taken = Taken(worker: Worker, socket: Socket, fate: Fate)

  /**
    * The listening thread and the workers that have not ended. A worker that found the queue empty holds the mutex
    * until it sleeps; a sleeper that was signalled is woken until it holds the mutex again; a worker that is leaving
    * has given up the mutex and is about to read the stop flag, for what it took if it took something. The last four
    * fields are the history: sockets given to the queue, those it took in, what the workers got, in order, and who held
    * the mutex during the final broadcast.
    */
  datatype State = State(
    ring: Ring,
    stop: bool,
    ended: bool,
    workers: set<Worker>,
    holder: Option<Worker>,
    asleep: set<Worker>,
    woken: set<Worker>,
    leaving: map<Worker, Option<nat>>,
    masterAsleep: bool,
    offered: seq<Socket>,
    accepted: seq<Socket>,
    taken: seq<Taken>,
    late: set<Worker>)
  {
    function Queued(): int {
      ring.head - ring.tail
    }

    /** Whether the worker may come for the next socket. */
    predicate Ready(w: Worker) {
      w in workers && w !in asleep && w !in leaving && holder == None
    }
  }

  datatype Action =
    | Produce(x: Socket, wakes: set<Worker>)
    | MasterWait
    | MasterWake
    | Consume(w: Worker)
    | Leave(w: Worker)
    | Test(w: Worker)
    | Sleep(w: Worker)
    | Wake(w: Worker)
    | Stop
    | Broadcast

  predicate Initial(s: State) {
    && s.ring.Valid() && s.ring.head == s.ring.tail && !s.stop && !s.ended && !s.masterAsleep
    && s.holder == None && s.asleep == {} && s.woken == {} && s.leaving == map[] && s.late == {}
    && s.offered == [] && s.accepted == [] && s.taken == []
  }

  /** A signal wakes at least one sleeper, if there is one; threads may also wake unsignalled. */
  predicate Enabled(s: State, a: Action) {
    match a
    case Produce(_, wakes) =>
      && !s.masterAsleep && !s.ended && s.holder == None && (s.stop || s.Queued() < SIZE)
      && wakes <= s.asleep && (s.asleep != {} ==> wakes != {})
    case MasterWait => !s.masterAsleep && !s.ended && s.holder == None && !s.stop && s.Queued() >= SIZE
    case MasterWake => s.masterAsleep
    case Consume(w) => s.Ready(w) && (s.Queued() != 0 || s.stop)
    case Leave(w) => w in s.leaving && (s.leaving[w].Some? ==> s.leaving[w].value < |s.taken|)
    case Test(w) => s.Ready(w) && !s.stop && s.Queued() == 0
    case Sleep(w) => s.holder == Some(w)
    case Wake(w) => w in s.asleep
    case Stop => true
    case Broadcast => s.stop && !s.ended && !s.masterAsleep
  }

  function Step(s: State, a: Action): State
    requires s.ring.Valid() && Enabled(s, a)
  {
    match a
    case Produce(x, wakes) =>
      s.(ring := s.ring.Put(x), asleep := s.asleep - wakes, woken := s.woken + wakes,
         offered := s.offered + [x], accepted := if s.Queued() < SIZE then s.accepted + [x] else s.accepted)
    case MasterWait => s.(masterAsleep := true)
    case MasterWake => s.(masterAsleep := false)
    case Consume(w) =>
      var got := s.Queued() > 0;
      s.(ring := s.ring.Take(), masterAsleep := false, woken := s.woken - {w},
         leaving := s.leaving[w := if got then Some(|s.taken|) else None],
         taken := if got then s.taken + [Taken(w, s.ring.Slot(s.ring.tail), Pending)] else s.taken)
    case Leave(w) =>
      s.(leaving := s.leaving - {w}, workers := if s.stop then s.workers - {w} else s.workers,
         taken := Decided(s.taken, s.leaving[w], if s.stop then Dropped else Handled))
    case Test(w) => s.(holder := Some(w), woken := s.woken - {w})
    case Sleep(w) => s.(holder := None, asleep := s.asleep + {w})
    case Wake(w) => s.(asleep := s.asleep - {w}, woken := s.woken + {w})
    case Stop => s.(stop := true)
    case Broadcast =>
      s.(ended := true, asleep := {}, woken := s.woken + s.asleep,
         late := if s.holder.Some? then {s.holder.value} else {})
  }

  function Decided(taken: seq<Taken>, k: Option<nat>, fate: Fate): seq<Taken>
    requires k.Some? ==> k.value < |taken|
  {
    if k.Some? then taken[k.value := taken[k.value].(fate := fate)] else taken
  }

  function Sockets(t: seq<Taken>): (r: seq<Socket>)
    ensures |r| == |t| && forall i :: 0 <= i < |t| ==> r[i] == t[i].socket
  {
    seq(|t|, i requires 0 <= i < |t| => t[i].socket)
  }

  /** What went in has come out, in the same order, or is still queued. */
  ghost predicate Fifo(s: State)
    requires s.ring.Valid()
  {
    s.accepted == Sockets(s.taken) + s.ring.Contents() && (!s.stop ==> s.offered == s.accepted)
  }

  /** A taken socket is pending while its worker is leaving with it, and dropped only when stopping. */
  ghost predicate Fates(s: State) {
    && (forall w :: w in s.leaving && s.leaving[w].Some? ==>
          var k := s.leaving[w].value; k < |s.taken| && s.taken[k].worker == w && s.taken[k].fate == Pending)
    && (forall k :: 0 <= k < |s.taken| && s.taken[k].fate == Pending ==>
          s.taken[k].worker in s.leaving && s.leaving[s.taken[k].worker] == Some(k))
    && (!s.stop ==> forall k :: 0 <= k < |s.taken| ==> s.taken[k].fate != Dropped)
  }

  /** A worker is in one place at a time. */
  ghost predicate Places(s: State) {
    && s.asleep <= s.workers && s.woken <= s.workers && s.leaving.Keys <= s.workers
    && s.asleep !! s.woken && s.asleep !! s.leaving.Keys && s.woken !! s.leaving.Keys
    && (s.holder.Some? ==>
          && s.holder.value in s.workers
          && s.holder.value !in s.asleep && s.holder.value !in s.woken && s.holder.value !in s.leaving)
  }

  /**
    * Nobody sleeps through work: queued sockets have woken workers coming for them, the producer sleeps only while the
    * queue is full, and after the final broadcast only a worker that held the mutex during it may fall asleep.
    */
  ghost predicate Awake(s: State) {
    && (s.asleep != {} ==> s.Queued() <= |s.woken|)
    && (s.holder.Some? ==> s.Queued() == 0)
    && (s.masterAsleep ==> s.Queued() == SIZE && !s.ended)
    && |s.late| <= 1
    && (s.ended ==> s.stop && s.asleep <= s.late && (s.holder.Some? ==> s.holder.value in s.late))
  }

  ghost predicate Inv(s: State) {
    s.ring.Valid() && Fifo(s) && Fates(s) && Places(s) && Awake(s)
  }

  lemma FifoKept(s: State, a: Action)
    requires s.ring.Valid() && Fifo(s) && Enabled(s, a)
    ensures Step(s, a).ring.Valid() && Fifo(Step(s, a))
  {
    hide Ring.Put, Ring.Take, Ring.Contents, Ring.Slot, Sockets, Decided;
    match a
    case Produce(x, _) =>
      PutAppends(s.ring, x);
      Snoc(Sockets(s.taken), s.ring.Contents(), x);
    case Consume(w) =>
      TakeRemoves(s.ring);
      if s.Queued() > 0 {
        MoveFirst(s.taken, s.ring.Contents(), Taken(w, s.ring.Slot(s.ring.tail), Pending));
      }
    case Leave(w) =>
      SameSockets(s.taken, s.leaving[w], if s.stop then Dropped else Handled);
    case _ =>
  }

  lemma Snoc(a: seq<Socket>, b: seq<Socket>, x: Socket)
    ensures a + b + [x] == a + (b + [x])
  {
  }

  lemma MoveFirst(taken: seq<Taken>, queued: seq<Socket>, t: Taken)
    requires queued != [] && t.socket == queued[0]
    ensures Sockets(taken) + queued == Sockets(taken + [t]) + queued[1..]
  {
    assert Sockets(taken + [t]) == Sockets(taken) + [t.socket];
    assert queued == [t.socket] + queued[1..];
  }

  lemma SameSockets(taken: seq<Taken>, k: Option<nat>, fate: Fate)
    requires k.Some? ==> k.value < |taken|
    ensures Sockets(Decided(taken, k, fate)) == Sockets(taken)
  {
  }

  lemma FatesKept(s: State, a: Action)
    requires s.ring.Valid() && Fates(s) && Places(s) && Enabled(s, a)
    ensures Fates(Step(s, a))
  {
    hide Ring.Put, Ring.Take, Ring.Slot;
    match a
    case Leave(w) =>
      LeaveDecides(s, w);
    case Consume(w) =>
      ConsumePends(s, w);
    case _ =>
  }

  lemma ConsumePends(s: State, w: Worker)
    requires s.ring.Valid() && Fates(s) && Enabled(s, Consume(w))
    ensures Fates(Step(s, Consume(w)))
  {
    hide Ring.Take, Ring.Slot;
  }

  lemma LeaveDecides(s: State, w: Worker)
    requires s.ring.Valid() && Fates(s) && Enabled(s, Leave(w))
    ensures Fates(Step(s, Leave(w)))
  {
  }

  lemma PlacesKept(s: State, a: Action)
    requires s.ring.Valid() && Places(s) && Enabled(s, a)
    ensures Places(Step(s, a))
  {
    hide Ring.Put, Ring.Take, Ring.Slot, Decided;
  }

  /** Signalling a sleeper makes up for the new socket. */
  lemma AwakeProduce(s: State, x: Socket, wakes: set<Worker>)
    requires s.ring.Valid() && Places(s) && Awake(s) && Enabled(s, Produce(x, wakes))
    ensures Awake(Step(s, Produce(x, wakes)))
  {
    assert s.woken !! wakes;
    assert |s.woken + wakes| == |s.woken| + |wakes|;
    assert wakes != {} ==> |wakes| >= 1;
  }

  /** Taking a socket makes up for the worker that is no longer on its way. */
  lemma AwakeConsume(s: State, w: Worker)
    requires s.ring.Valid() && Awake(s) && Enabled(s, Consume(w))
    ensures Awake(Step(s, Consume(w)))
  {
    TakeRemoves(s.ring);
    hide Ring.Take, Ring.Contents, Ring.Slot;
    assert w in s.woken ==> |s.woken - {w}| == |s.woken| - 1;
    assert w !in s.woken ==> s.woken - {w} == s.woken;
  }

  lemma AwakeKept(s: State, a: Action)
    requires s.ring.Valid() && Places(s) && Awake(s) && Enabled(s, a)
    ensures Awake(Step(s, a))
  {
    hide Ring.Put, Ring.Take, Ring.Slot, Decided;
    match a
    case Produce(x, wakes) =>
      AwakeProduce(s, x, wakes);
    case Consume(w) =>
      AwakeConsume(s, w);
    case Wake(w) =>
      assert |s.woken + {w}| == |s.woken| + 1;
    case _ =>
  }

  lemma StepKeepsInv(s: State, a: Action)
    requires Inv(s) && Enabled(s, a)
    ensures Inv(Step(s, a))
  {
    hide Fifo, Fates, Places, Awake, Step, Enabled;
    FifoKept(s, a);
    FatesKept(s, a);
    PlacesKept(s, a);
    AwakeKept(s, a);
  }

  ghost predicate Run(s: State, actions: seq<Action>, t: State)
    requires s.ring.Valid()
    decreases |actions|
  {
    if actions == [] then t == s
    else Enabled(s, actions[0]) && Step(s, actions[0]).ring.Valid() && Run(Step(s, actions[0]), actions[1..], t)
  }

  lemma {:induction false} RunKeepsInv(s: State, actions: seq<Action>, t: State)
    requires Inv(s) && Run(s, actions, t)
    ensures Inv(t)
    decreases |actions|
  {
    if actions != [] {
      StepKeepsInv(s, actions[0]);
      RunKeepsInv(Step(s, actions[0]), actions[1..], t);
    }
  }

  lemma ReachableInv(s: State, actions: seq<Action>, t: State)
    requires Initial(s) && Run(s, actions, t)
    ensures Inv(t)
  {
    RunKeepsInv(s, actions, t);
  }

  /**
    * In every run, the i-th socket any worker gets is the i-th the queue took in, and at most 20 wait. Until a stop is
    * requested nothing is dropped: every socket is handled by the worker that took it, or about to be.
    */
  lemma ExactlyOnceInOrder(s: State, actions: seq<Action>, t: State)
    requires Initial(s) && Run(s, actions, t)
    ensures 0 <= t.Queued() <= SIZE && |t.accepted| == |t.taken| + t.Queued()
    ensures forall i :: 0 <= i < |t.taken| ==> t.taken[i].socket == t.accepted[i]
    ensures forall i :: 0 <= i < |t.taken| ==>
              (t.taken[i].fate == Pending <==>
                 t.taken[i].worker in t.leaving && t.leaving[t.taken[i].worker] == Some(i))
    ensures !t.stop ==> t.accepted == t.offered && forall i :: 0 <= i < |t.taken| ==> t.taken[i].fate != Dropped
  {
    ReachableInv(s, actions, t);
  }

  /** The sockets that the listening thread was given by a run, in order. */
  function Produced(actions: seq<Action>): seq<Socket> {
    if actions == [] then []
    else (if actions[0].Produce? then [actions[0].x] else []) + Produced(actions[1..])
  }

  /** What is offered to the queue is what the listening thread produces: nothing else, all of it, and in this order. */
  lemma {:induction false} OfferedIsProduced(s: State, actions: seq<Action>, t: State)
    requires s.ring.Valid() && Run(s, actions, t)
    ensures t.offered == s.offered + Produced(actions)
    decreases |actions|
  {
    if actions != [] {
      OfferedOnce(s, actions[0]);
      ProducedSplit(actions);
      hide Produced, Step, Enabled;
      OfferedIsProduced(Step(s, actions[0]), actions[1..], t);
      Rebracket(s.offered, Produced([actions[0]]), Produced(actions[1..]));
    }
  }

  lemma OfferedOnce(s: State, a: Action)
    requires s.ring.Valid() && Enabled(s, a)
    ensures Step(s, a).offered == s.offered + Produced([a])
  {
    hide Ring.Put, Ring.Take, Ring.Slot, Decided;
    assert [a][1..] == [] && Produced([a]) == if a.Produce? then [a.x] else [];
  }

  lemma ProducedSplit(actions: seq<Action>)
    requires actions != []
    ensures Produced(actions) == Produced([actions[0]]) + Produced(actions[1..])
  {
    assert [actions[0]][1..] == [];
  }

  lemma Rebracket(a: seq<Socket>, b: seq<Socket>, c: seq<Socket>)
    ensures a + b + c == a + (b + c)
  {
  }

  /** From the listening thread to the workers: before a stop they get what was produced, each socket once, in order. */
  lemma TakenIsProduced(s: State, actions: seq<Action>, t: State)
    requires Initial(s) && Run(s, actions, t) && !t.stop
    ensures |Produced(actions)| == |t.taken| + t.Queued() && t.Queued() >= 0
    ensures forall i :: 0 <= i < |t.taken| ==> t.taken[i].socket == Produced(actions)[i] && t.taken[i].fate != Dropped
  {
    hide Run, Produced;
    ExactlyOnceInOrder(s, actions, t);
    OfferedIsProduced(s, actions, t);
    assert s.offered + Produced(actions) == Produced(actions);
  }

  /** What becomes of a socket is decided when its worker reads the stop flag, and only then. */
  lemma FateIsDecided(s: State, w: Worker)
    requires Inv(s) && Enabled(s, Leave(w)) && s.leaving[w].Some?
    ensures var k := s.leaving[w].value;
            && Step(s, Leave(w)).taken == s.taken[k := Taken(w, s.taken[k].socket, if s.stop then Dropped else Handled)]
            && (w in Step(s, Leave(w)).workers <==> !s.stop)
  {
    hide Ring.Contents;
  }

  /** Before a stop is requested no worker ends, and after it none begins. */
  lemma {:induction false} WorkersStay(s: State, actions: seq<Action>, t: State)
    requires s.ring.Valid() && Run(s, actions, t)
    ensures t.workers <= s.workers
    ensures !t.stop ==> !s.stop && t.workers == s.workers
    decreases |actions|
  {
    if actions != [] {
      WorkersStay(Step(s, actions[0]), actions[1..], t);
    }
  }

  /**
    * No wakeup is lost: in every run, while sockets are queued not all of the remaining workers are asleep, and if any
    * sleeps then one is woken and can take a socket. Before a stop, no worker has ended.
    */
  lemma NoLostWakeup(s: State, actions: seq<Action>, t: State)
    requires Initial(s) && Run(s, actions, t)
    ensures (t.Queued() > 0 || t.masterAsleep) && t.workers != {} ==> t.asleep != t.workers
    ensures t.Queued() > 0 && t.asleep != {} ==> exists w :: w in t.woken && Enabled(t, Consume(w))
    ensures !t.stop ==> t.workers == s.workers
  {
    ReachableInv(s, actions, t);
    WorkersStay(s, actions, t);
    if t.Queued() > 0 && t.asleep != {} {
      var w :| w in t.woken;
      assert Enabled(t, Consume(w));
    }
  }

  /**
    * While the producer sleeps, a worker can take a socket and so wake it, if and only if not all the remaining workers
    * are leaving. Before a stop those that leave come back.
    */
  lemma ProducerIsServed(s: State, actions: seq<Action>, t: State)
    requires Initial(s) && Run(s, actions, t) && t.masterAsleep
    ensures t.ring.Valid()
    ensures (exists w :: Enabled(t, Consume(w))) <==> t.workers != t.leaving.Keys
    ensures forall w :: Enabled(t, Consume(w)) ==> !Step(t, Consume(w)).masterAsleep
    ensures !t.stop ==> forall w :: Enabled(t, Leave(w)) ==>
              Step(t, Leave(w)).workers == s.workers && Enabled(Step(t, Leave(w)), Consume(w))
  {
    ReachableInv(s, actions, t);
    WorkersStay(s, actions, t);
    hide Fifo, Fates;
    if t.workers != t.leaving.Keys {
      assert t.leaving.Keys < t.workers;
      var w :| w in t.workers && w !in t.leaving;
      if w in t.asleep {
        w :| w in t.woken;
      }
      assert Enabled(t, Consume(w));
    }
  }

  /** The producer sleeps, a stop is requested, and all the remaining workers, if any, are on their way out. */
  ghost predicate Stuck(s: State) {
    Inv(s) && s.masterAsleep && s.stop && s.workers == s.leaving.Keys
  }

  /** Then only an unsignalled wakeup ends the producer's sleep. */
  lemma StuckStays(s: State, a: Action)
    requires Stuck(s) && Enabled(s, a) && a != MasterWake
    ensures Stuck(Step(s, a))
  {
    StepKeepsInv(s, a);
    hide Fifo, Fates;
  }

  lemma {:induction false} RunAppend(s: State, a: seq<Action>, b: seq<Action>, t: State, u: State)
    requires s.ring.Valid() && t.ring.Valid() && Run(s, a, t) && Run(t, b, u)
    ensures Run(s, a + b, u)
    decreases |a|
  {
    if a == [] {
      assert a + b == b;
    } else {
      assert (a + b)[0] == a[0] && (a + b)[1..] == a[1..] + b;
      RunAppend(Step(s, a[0]), a[1..], b, t, u);
    }
  }

  lemma Then(s: State, actions: seq<Action>, t: State, a: Action)
    requires Initial(s) && Run(s, actions, t) && Enabled(t, a)
    ensures s.ring.Valid() && t.ring.Valid() && Inv(t) && Run(s, actions + [a], Step(t, a))
  {
    ReachableInv(s, actions, t);
    StepKeepsInv(t, a);
    hide Fifo, Fates, Places, Awake, Initial, Enabled, Step;
    assert [a][1..] == [] && Run(Step(t, a), [], Step(t, a)) && Run(t, [a], Step(t, a));
    RunAppend(s, actions, [a], t, Step(t, a));
  }

  /** The producer fills an empty queue. */
  lemma {:induction false} Fill(s: State, n: nat) returns (actions: seq<Action>, t: State)
    requires Initial(s) && n <= SIZE
    ensures Run(s, actions, t) && t.Queued() == n
    ensures s.(ring := t.ring, offered := t.offered, accepted := t.accepted) == t
  {
    if n == 0 {
      actions, t := [], s;
    } else {
      actions, t := Fill(s, n - 1);
      hide Run;
      Then(s, actions, t, Produce(0, {}));
      actions, t := actions + [Produce(0, {})], Step(t, Produce(0, {}));
    }
  }

  lemma Go(s: State, actions: seq<Action>, t: State, a: Action) returns (more: seq<Action>, u: State)
    requires Initial(s) && Run(s, actions, t) && Enabled(t, a)
    ensures Inv(t) && u == Step(t, a) && Run(s, more, u)
  {
    Then(s, actions, t, a);
    more, u := actions + [a], Step(t, a);
  }

  /** The queue is full while the only worker has just taken a socket. */
  predicate Crowded(s: State, n: int) {
    && s.Queued() == n && s.holder == None && s.asleep == {} && !s.ended
    && s.workers == {0} && s.leaving == map[0 := Some(0)] && |s.taken| == 1
  }

  /** With the queue full the worker takes a socket. */
  lemma TakeOne(s: State) returns (actions: seq<Action>, t: State)
    requires Initial(s) && s.workers == {0}
    ensures Run(s, actions, t) && Crowded(t, SIZE - 1) && !t.stop && !t.masterAsleep
  {
    var before, u := Fill(s, SIZE);
    hide Run, Ring.Take, Ring.Contents, Inv;
    actions, t := Go(s, before, u, Consume(0));
    TakeRemoves(u.ring) by { ReachableInv(s, before, u); }
  }

  /** The producer fills it up again. */
  lemma FillUp(s: State, before: seq<Action>, u: State) returns (actions: seq<Action>, t: State)
    requires Initial(s) && Run(s, before, u) && Crowded(u, SIZE - 1) && !u.stop && !u.masterAsleep
    ensures Run(s, actions, t) && Crowded(t, SIZE) && !t.stop && !t.masterAsleep
  {
    hide Run, Ring.Contents, Inv, Initial;
    actions, t := Go(s, before, u, Produce(0, {}));
  }

  lemma WaitAndStop(s: State, before: seq<Action>, u: State) returns (actions: seq<Action>, t: State)
    requires Initial(s) && Run(s, before, u) && Crowded(u, SIZE) && !u.stop && !u.masterAsleep
    ensures Run(s, actions, t) && Crowded(t, SIZE) && t.stop && t.masterAsleep
  {
    hide Run, Inv, Initial;
    actions, t := Go(s, before, u, MasterWait);
    actions, t := Go(s, actions, t, Stop);
  }

  lemma LastLeaves(s: State, before: seq<Action>, u: State) returns (actions: seq<Action>, t: State)
    requires Initial(s) && Run(s, before, u) && Crowded(u, SIZE) && u.stop && u.masterAsleep
    ensures Run(s, actions, t) && t.masterAsleep && t.stop && t.workers == t.leaving.Keys == {} && !t.ended
  {
    hide Run, Inv, Initial, Decided;
    actions, t := Go(s, before, u, Leave(0));
  }

  /**
    * With one worker: it takes a socket, the producer fills the queue again and waits, a stop is requested, and the
    * worker sees it: nobody is left to wake the producer.
    */
  lemma StopCanStick(s: State)
    requires Initial(s) && s.workers == {0}
    ensures exists actions, t :: Run(s, actions, t) && Stuck(t) && t.workers == {} && !t.ended
  {
    var actions, t := TakeOne(s);
    hide Run, Inv, Crowded, Initial;
    actions, t := FillUp(s, actions, t);
    actions, t := WaitAndStop(s, actions, t);
    actions, t := LastLeaves(s, actions, t);
    ReachableInv(s, actions, t);
    assert Run(s, actions, t) && Stuck(t);
  }

  /** After the final broadcast at most one worker sleeps, and only one that held the mutex during it. */
  lemma AtMostOneLeftAsleep(s: State, actions: seq<Action>, t: State)
    requires Initial(s) && Run(s, actions, t) && t.ended
    ensures t.asleep <= t.late && |t.asleep| <= 1
  {
    ReachableInv(s, actions, t);
    if t.asleep != {} {
      var w :| w in t.asleep;
      assert |t.late - {w}| == |t.late| - 1;
      assert t.late == {w} == t.asleep;
    }
  }

  /** Nothing but an unsignalled wakeup ends its sleep then. */
  lemma NobodyWakes(s: State, a: Action, w: Worker)
    requires Inv(s) && s.ended && w in s.asleep && Enabled(s, a) && a != Wake(w)
    ensures w in Step(s, a).asleep
  {
  }

  /** While the server runs, the oldest queued socket can be taken and handled, whatever happened before. */
  lemma CanHandle(s: State, actions: seq<Action>, t: State)
    requires Initial(s) && Run(s, actions, t) && !t.stop && t.workers != {} && t.Queued() > 0
    ensures t.ring.Valid()
    ensures exists more, u :: Run(s, more, u) && !u.stop && |u.taken| == |t.taken| + 1
                              && u.taken[|t.taken|].socket == t.ring.Slot(t.ring.tail)
                              && u.taken[|t.taken|].fate == Handled
  {
    ReachableInv(s, actions, t);
    hide Run, Fifo, Fates, Ring.Contents, Ring.Slot, Ring.Take;
    var more, u := actions, t;
    var w: Worker;
    if t.asleep != {} {
      w :| w in t.woken;
    } else {
      w :| w in t.workers;
      if w in t.leaving {
        LeavingKeeps(t, w);
        more, u := Go(s, more, u, Leave(w));
      }
    }
    ConsumeAndLeave(s, more, u, w);
  }

  lemma LeavingKeeps(s: State, w: Worker)
    requires Inv(s) && w in s.leaving && !s.stop && s.Queued() > 0
    ensures Enabled(s, Leave(w))
    ensures var u := Step(s, Leave(w));
            && u.Ready(w) && !u.stop && u.Queued() > 0 && |u.taken| == |s.taken| && u.ring == s.ring
  {
    hide Fifo, Ring.Contents;
  }

  lemma ConsumeAndLeave(s: State, actions: seq<Action>, t: State, w: Worker)
    requires Initial(s) && Run(s, actions, t) && t.ring.Valid() && t.Ready(w) && !t.stop && t.Queued() > 0
    ensures exists more, u :: Run(s, more, u) && !u.stop && |u.taken| == |t.taken| + 1
                              && u.taken[|t.taken|].socket == t.ring.Slot(t.ring.tail)
                              && u.taken[|t.taken|].fate == Handled
  {
    hide Run, Inv, Initial, Ring.Contents, Ring.Slot, Ring.Take;
    var more, u := Go(s, actions, t, Consume(w));
    var k := |t.taken|;
    assert u.leaving[w] == Some(k) && u.taken[k].socket == t.ring.Slot(t.ring.tail);
    more, u := Go(s, more, u, Leave(w));
  }

  /** If nobody holds the mutex during the broadcast, nobody sleeps again. */
  lemma {:induction false} NoneSleepsAgain(s: State, actions: seq<Action>, t: State)
    requires Inv(s) && s.ended && s.holder == None && s.asleep == {} && Run(s, actions, t)
    ensures t.asleep == {}
    decreases |actions|
  {
    if actions != [] {
      StepKeepsInv(s, actions[0]);
      NoneSleepsAgain(Step(s, actions[0]), actions[1..], t);
    }
  }

  /** The final broadcast, sent without the mutex, misses a worker exactly if one is between its test and its wait. */
  lemma BroadcastMisses(s: State, actions: seq<Action>, t: State)
    requires Initial(s) && Run(s, actions, t) && Enabled(t, Broadcast)
    ensures t.ring.Valid()
    ensures (exists more, u :: Run(Step(t, Broadcast), more, u) && u.asleep != {}) <==> t.holder != None
  {
    ReachableInv(s, actions, t);
    var now := Step(t, Broadcast);
    StepKeepsInv(t, Broadcast);
    hide Fifo, Fates, Places, Awake, Run;
    if t.holder == None {
      forall more, u | Run(now, more, u)
        ensures u.asleep == {}
      {
        NoneSleepsAgain(now, more, u);
      }
    } else {
      HolderSleeps(now, t.holder.value);
    }
  }

  lemma HolderSleeps(s: State, w: Worker)
    requires Inv(s) && s.holder == Some(w)
    ensures exists more, u :: Run(s, more, u) && u.asleep != {}
  {
    var a := Sleep(w);
    StepKeepsInv(s, a);
    var u := Step(s, a);
    assert w in u.asleep;
    hide Fifo, Fates, Places, Awake;
    assert [a][1..] == [] && Run(u, [], u) && Run(s, [a], u);
  }

  /** And one can be, in the last of its waits. */
  lemma OneMaySleepOn(s: State)
    requires Initial(s) && 0 in s.workers
    ensures exists actions, t :: Run(s, actions, t) && Enabled(t, Broadcast) && t.holder == Some(0)
  {
    var t := Step(Step(s, Test(0)), Stop);
    assert Run(s, [], s);
    Then(s, [], s, Test(0));
    Then(s, [] + [Test(0)], Step(s, Test(0)), Stop);
    assert Run(s, [] + [Test(0)] + [Stop], t);
  }
}
