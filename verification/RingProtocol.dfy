/**
  * The log ring as a transition system: writers that hold the spinlock copy a frame byte by byte and then publish it,
  * any number of readers work without a lock. `log` is the unbounded history of published messages.
  */
module RingProtocol {
  import opened Common
  import opened RingLayout
  import DivMod

  type Byte = bv8
  type Message = seq<Byte>

  /** The spinlock: free, or held by the one writer that copies bytes in any order or has just published. */
  datatype Lock = Free | Copying(msg: Message, done: set<nat>) | Published

  /**
    * A frame pointer that a successful read returned, the bytes fetched through it so far, whether each of them was
    * fetched in time, that is before the writer began to reuse the slot, and whether the frame stands for a message.
    */
  datatype Frame = Frame(number: nat, off: nat, got: map<nat, Byte>, inTime: bool, sound: bool)

  /** What a reader's cursor is worth: it stands for message idx, or for none since a seek that was not exact. */
  datatype Trust = Exact | Skew | Lost

  /**
    * A client: its cursor, whether its last check reported new data that it has not taken yet, and all frame pointers
    * it was ever handed. What its cursor is worth, the message number `idx`, its value `base` at the last reset or seek
    * and the number `from` of frames handed out before that exist only for the proof.
    */
  datatype Reader = Reader(
    r: Cursor,
    checked: bool,
    frames: seq<Frame>,
    trust: Trust,
    idx: nat,
    base: nat,
    from: nat)

  datatype State = State(data: seq<Byte>, w: Cursor, lock: Lock, readers: map<nat, Reader>, log: seq<Message>)

  datatype Action =
    | Acquire(msg: Message)
    | CopyByte(j: nat)
    | Publish
    | Release
    | Reset(reader: nat)
    | Seek(reader: nat, crush: nat)
    | Check(reader: nat)
    | Take(reader: nat)
    | Fetch(reader: nat, t: nat, j: nat)

  function Initial(l: Layout): State
    requires l.Valid()
  {
    State(seq(l.size - l.header, _ => 0), Cursor(0, 0), Free, map[], [])
  }

  ghost predicate Enabled(l: Layout, s: State, a: Action)
    requires l.Valid()
  {
    match a
    case Acquire(msg) => s.lock.Free? && |msg| == l.frame
    case CopyByte(j) => s.lock.Copying? && j < |s.lock.msg| && s.w.off + j < |s.data|
    case Publish => s.lock.Copying? && forall j: nat :: j < |s.lock.msg| ==> j in s.lock.done
    case Release => s.lock.Published?
    case Reset(_) => true
    case Seek(i, crush) => i in s.readers && 1 <= crush <= l.Slots()
    case Check(i) => i in s.readers
    case Take(i) => i in s.readers && s.readers[i].checked
    case Fetch(i, t, j) =>
      && i in s.readers && t < |s.readers[i].frames|
      && j < l.frame && s.readers[i].frames[t].off + j < |s.data|
  }

  function Status(l: Layout, s: State, i: nat): ReadStatus
    requires i in s.readers
  {
    l.HasData(s.w, s.readers[i].r)
  }

  ghost function Step(l: Layout, s: State, a: Action): State
    requires l.Valid() && Enabled(l, s, a)
  {
    match a
    case Acquire(msg) => s.(lock := Copying(msg, {}))
    case CopyByte(j) => s.(data := s.data[s.w.off + j := s.lock.msg[j]],
                           lock := s.lock.(done := s.lock.done + {j}))
    case Publish => s.(w := l.Advance(s.w), lock := Published, log := s.log + [s.lock.msg])
    case Release => s.(lock := Free)
    case Reset(i) =>
      var frames := if i in s.readers then s.readers[i].frames else [];
      SetReader(s, i, Reader(s.w, false, frames, Exact, |s.log|, |s.log|, |frames|))
    case Seek(i, crush) =>
      var frames, k := s.readers[i].frames, l.Oldest(|s.log|, crush);
      SetReader(s, i, Reader(l.Seek(s.w, crush), false, frames, Sought(l, |s.log|, crush), k, k, |frames|))
    case Check(i) => SetReader(s, i, s.readers[i].(checked := Status(l, s, i) == NEW_DATA))
    case Take(i) =>
      var x := s.readers[i];
      var frame := Frame(x.idx, x.r.off, map[], true, x.trust == Exact);
      var trust := if x.trust == Skew && l.Advance(x.r).off == 0 then Lost else x.trust;
      SetReader(s, i, Reader(l.Advance(x.r), false, x.frames + [frame], trust, x.idx + 1, x.base, x.from))
    case Fetch(i, t, j) =>
      var x := s.readers[i];
      SetReader(s, i, x.(frames := x.frames[t := Fetched(l, s, x.frames[t], j)]))
  }

  /** A seek that wraps and is not exact leaves the slots; the other kind ends at the start of the data area. */
  function Sought(l: Layout, w: nat, crush: nat): Trust
    requires l.Valid()
  {
    if l.SeekIsExact(w, crush) then Exact else if w % l.Slots() + crush >= l.Slots() then Skew else Lost
  }

  function Fetched(l: Layout, s: State, frame: Frame, j: nat): Frame
    requires l.Valid() && frame.off + j < |s.data|
  {
    frame.(got := frame.got[j := s.data[frame.off + j]],
           inTime := frame.inTime && Started(s) <= frame.number + l.Slots())
  }

  function SetReader(s: State, i: nat, x: Reader): State {
    s.(readers := s.readers[i := x])
  }

  /** How many messages have been started, that is published or begun. */
  function Started(s: State): nat {
    |s.log| + if s.lock.Copying? then 1 else 0
  }

  ghost predicate SlotHolds(l: Layout, data: seq<Byte>, k: nat, msg: Message)
    requires l.Valid() && |data| == l.size - l.header
  {
    |msg| == l.frame && forall j :: 0 <= j < l.frame ==> data[l.Off(k) + j] == msg[j]
  }

  ghost predicate WriterInv(l: Layout, s: State)
    requires l.Valid()
  {
    && |s.data| == l.size - l.header
    && s.w == l.At(|s.log|)
    && (forall k :: 0 <= k < |s.log| ==> |s.log[k]| == l.frame)
    && (forall k: nat :: k < |s.log| && Started(s) <= k + l.Slots() ==> SlotHolds(l, s.data, k, s.log[k]))
    && (s.lock.Copying? ==>
          && |s.lock.msg| == l.frame
          && forall j :: j in s.lock.done ==> j < l.frame && s.data[s.w.off + j] == s.lock.msg[j])
  }

  ghost predicate ReaderInv(l: Layout, s: State, x: Reader)
    requires l.Valid()
  {
    && x.from <= |x.frames|
    && (forall t :: 0 <= t < |x.frames| ==> FrameInv(l, s, x.frames[t]))
    && (x.trust == Exact ==> ExactInv(l, s, x))
    && (x.trust == Skew ==> SkewInv(l, x))
  }

  /** The frames since the last reset or seek are those of consecutive messages, up to the reader's position. */
  ghost predicate ExactInv(l: Layout, s: State, x: Reader)
    requires l.Valid()
  {
    && x.r == l.At(x.idx)
    && x.base <= x.idx <= |s.log|
    && (x.checked ==> x.idx < |s.log|)
    && x.from + (x.idx - x.base) == |x.frames|
    && (forall t :: x.from <= t < |x.frames| ==> x.frames[t].sound && x.frames[t].number == x.base + (t - x.from))
  }

  /** The frames since the seek start where no message does. */
  ghost predicate SkewInv(l: Layout, x: Reader)
    requires l.Valid()
  {
    && Skewed(l, x.r.off)
    && (forall t :: x.from <= t < |x.frames| ==> Skewed(l, x.frames[t].off))
  }

  /** Whatever was fetched in time is the message that the frame stands for. */
  ghost predicate FrameInv(l: Layout, s: State, frame: Frame)
    requires l.Valid()
  {
    frame.sound ==>
      && frame.number < |s.log| && frame.off == l.Off(frame.number)
      && (Started(s) <= frame.number + l.Slots() ==> frame.inTime)
      && (frame.inTime ==> forall j :: j in frame.got ==>
            j < |s.log[frame.number]| && frame.got[j] == s.log[frame.number][j])
  }

  ghost predicate Inv(l: Layout, s: State)
    requires l.Valid()
  {
    WriterInv(l, s) && forall i :: i in s.readers ==> ReaderInv(l, s, s.readers[i])
  }

  lemma InitialInv(l: Layout)
    requires l.Valid()
    ensures Inv(l, Initial(l))
  {
    DivMod.Unique(0, l.Slots(), 0, 0);
  }

  /** Writing into the slot of message w leaves every younger slot alone. */
  lemma CopyKeepsSlots(l: Layout, data: seq<Byte>, w: nat, k: nat, j: nat, b: Byte, msg: Message)
    requires l.Valid() && |data| == l.size - l.header && j < l.frame
    requires k < w < k + l.Slots()
    requires SlotHolds(l, data, k, msg)
    ensures SlotHolds(l, data[l.Off(w) + j := b], k, msg)
  {
    DivMod.Distinct(k, w, l.Slots());
    DivMod.Disjoint(k % l.Slots(), w % l.Slots(), l.frame);
  }

  lemma CopyStep(l: Layout, s: State, j: nat)
    requires l.Valid() && Enabled(l, s, CopyByte(j)) && WriterInv(l, s)
    ensures WriterInv(l, Step(l, s, CopyByte(j)))
  {
    var s' := Step(l, s, CopyByte(j));
    forall k: nat | k < |s.log| && Started(s) <= k + l.Slots()
      ensures SlotHolds(l, s'.data, k, s'.log[k])
    {
      CopyKeepsSlots(l, s.data, |s.log|, k, j, s.lock.msg[j], s.log[k]);
    }
  }

  lemma PublishStep(l: Layout, s: State)
    requires l.Valid() && Enabled(l, s, Publish) && WriterInv(l, s)
    ensures WriterInv(l, Step(l, s, Publish))
  {
    AdvanceIsSuccessor(l, |s.log|);
    assert SlotHolds(l, s.data, |s.log|, s.lock.msg);
  }

  lemma WriterStep(l: Layout, s: State, a: Action)
    requires l.Valid() && Enabled(l, s, a) && WriterInv(l, s)
    ensures WriterInv(l, Step(l, s, a))
    ensures Started(s) <= Started(Step(l, s, a)) && s.log <= Step(l, s, a).log
  {
    match a
    case CopyByte(j) => CopyStep(l, s, j);
    case Publish => PublishStep(l, s);
    case _ =>
  }

  /** A step that does not touch reader x keeps what is known about it. */
  lemma ReaderFrame(l: Layout, s: State, a: Action, x: Reader)
    requires l.Valid() && Enabled(l, s, a) && WriterInv(l, s) && ReaderInv(l, s, x)
    ensures ReaderInv(l, Step(l, s, a), x)
  {
    WriterStep(l, s, a);
  }

  lemma FetchedInv(l: Layout, s: State, frame: Frame, j: nat)
    requires l.Valid() && WriterInv(l, s) && FrameInv(l, s, frame) && j < l.frame && frame.off + j < |s.data|
    ensures FrameInv(l, s, Fetched(l, s, frame, j))
  {
    if frame.sound && Started(s) <= frame.number + l.Slots() {
      assert SlotHolds(l, s.data, frame.number, s.log[frame.number]);
    }
  }

  lemma FetchStep(l: Layout, s: State, i: nat, t: nat, j: nat)
    requires l.Valid() && Enabled(l, s, Fetch(i, t, j)) && WriterInv(l, s) && ReaderInv(l, s, s.readers[i])
    ensures ReaderInv(l, s, Step(l, s, Fetch(i, t, j)).readers[i])
  {
    hide FrameInv, Fetched, WriterInv, Skewed;
    var frame := s.readers[i].frames[t];
    FetchedInv(l, s, frame, j);
    NumberKept(l, s, frame, j);
  }

  lemma NumberKept(l: Layout, s: State, frame: Frame, j: nat)
    requires l.Valid() && frame.off + j < |s.data|
    ensures var now := Fetched(l, s, frame, j);
            now.number == frame.number && now.sound == frame.sound && now.off == frame.off
  {
  }

  lemma TakeStep(l: Layout, s: State, i: nat)
    requires l.Valid() && Enabled(l, s, Take(i)) && WriterInv(l, s) && ReaderInv(l, s, s.readers[i])
    ensures ReaderInv(l, s, Step(l, s, Take(i)).readers[i])
  {
    hide Skewed;
    var x := s.readers[i];
    AdvanceIsSuccessor(l, x.idx);
    if x.trust == Skew {
      SkewStays(l, x.r);
    }
    assert FrameInv(l, s, Frame(x.idx, x.r.off, map[], true, x.trust == Exact));
  }

  lemma ReaderStep(l: Layout, s: State, a: Action)
    requires l.Valid() && Enabled(l, s, a) && Inv(l, s)
    requires a.Reset? || a.Seek? || a.Check? || a.Take? || a.Fetch?
    ensures ReaderInv(l, s, Step(l, s, a).readers[a.reader])
  {
    hide Skewed;
    match a
    case Seek(_, crush) =>
      SeekFindsOldest(l, |s.log|, crush);
      if Sought(l, |s.log|, crush) == Skew {
        SeekIsSkewed(l, |s.log|, crush);
      }
    case Check(i) => HasDataExact(l, |s.log|, s.readers[i].idx);
    case Take(i) => TakeStep(l, s, i);
    case Fetch(i, t, j) => FetchStep(l, s, i, t, j);
    case Reset(_) =>
  }

  lemma StepKeepsInv(l: Layout, s: State, a: Action)
    requires l.Valid() && Enabled(l, s, a) && Inv(l, s)
    ensures Inv(l, Step(l, s, a))
  {
    var s' := Step(l, s, a);
    WriterStep(l, s, a);
    if a.Reset? || a.Seek? || a.Check? || a.Take? || a.Fetch? {
      ReaderStep(l, s, a);
    }
    forall i | i in s'.readers
      ensures ReaderInv(l, s', s'.readers[i])
    {
      ReaderFrame(l, s, a, s'.readers[i]);
    }
  }

  /** Whether the actions can be taken one after the other from s, ending in s'. */
  ghost predicate Run(l: Layout, s: State, acts: seq<Action>, s': State)
    requires l.Valid()
    decreases |acts|
  {
    if acts == [] then s == s'
    else Enabled(l, s, acts[0]) && Run(l, Step(l, s, acts[0]), acts[1..], s')
  }

  lemma {:induction false} RunKeepsInv(l: Layout, s: State, acts: seq<Action>, s': State)
    requires l.Valid() && Inv(l, s) && Run(l, s, acts, s')
    ensures Inv(l, s')
    ensures s.log <= s'.log && Started(s) <= Started(s')
    decreases |acts|
  {
    if acts != [] {
      StepKeepsInv(l, s, acts[0]);
      WriterStep(l, s, acts[0]);
      RunKeepsInv(l, Step(l, s, acts[0]), acts[1..], s');
    }
  }

  ghost predicate Reachable(l: Layout, s: State)
    requires l.Valid()
  {
    exists acts :: Run(l, Initial(l), acts, s)
  }

  lemma ReachableInv(l: Layout, s: State)
    requires l.Valid() && Reachable(l, s)
    ensures Inv(l, s)
  {
    InitialInv(l);
    var acts :| Run(l, Initial(l), acts, s);
    RunKeepsInv(l, Initial(l), acts, s);
  }

  /** In every interleaving the report is the truth about published messages, exactly as far as the cursors can tell. */
  lemma StatusIsTrue(l: Layout, s: State, i: nat)
    requires l.Valid() && Reachable(l, s) && i in s.readers && s.readers[i].trust == Exact
    ensures s.readers[i].idx <= |s.log|
    ensures var d, n, r := |s.log| - s.readers[i].idx, l.Slots(), s.readers[i].idx;
            && (Status(l, s, i) == Classify(d, n) <==>
                  d < n || n <= Visible(l, |s.log|, r) < n * WORD - r % n)
            && (|s.log| / n - r / n < WORD ==> Status(l, s, i) == Classify(d, n))
  {
    ReachableInv(l, s);
    HasDataAgrees(l, |s.log|, s.readers[i].idx);
  }

  /**
    * Under every interleaving, a reader that is told NEW_DATA is about to be handed a slot that holds a published
    * message complete, and that is not the slot being copied into. The message is number idx if and only if the reader
    * is less than 2^32 rounds behind, and otherwise the youngest one that the cursor stands for.
    */
  lemma NewDataIsNextMessage(l: Layout, s: State, i: nat)
    requires l.Valid() && Reachable(l, s) && i in s.readers && s.readers[i].trust == Exact
    requires Status(l, s, i) == NEW_DATA
    ensures var x := s.readers[i];
            var k := |s.log| - Visible(l, |s.log|, x.idx);
            && x.idx <= k < |s.log|
            && x.r.off == l.Off(k) != s.w.off
            && x.r.off + l.frame <= |s.data|
            && s.data[x.r.off..x.r.off + l.frame] == s.log[k]
            && (k == x.idx <==> |s.log| - x.idx < l.Slots() * WORD)
  {
    ReachableInv(l, s);
    var x := s.readers[i];
    HasDataExact(l, |s.log|, x.idx);
    VisibleBack(l, |s.log|, x.idx);
    var k := |s.log| - Visible(l, |s.log|, x.idx);
    DivMod.Distinct(k, |s.log|, l.Slots());
    DivMod.Disjoint(k % l.Slots(), |s.log| % l.Slots(), l.frame);
    assert SlotHolds(l, s.data, k, s.log[k]);
  }

  ghost predicate Complete(l: Layout, frame: Frame) {
    forall j :: 0 <= j < l.frame ==> j in frame.got
  }

  ghost function Bytes(l: Layout, frame: Frame): (b: Message)
    requires Complete(l, frame)
  {
    seq(l.frame, j requires 0 <= j < l.frame => frame.got[j])
  }

  /**
    * A frame read out completely, however the reader was interleaved since it took the pointer, is exactly the message
    * of its number as logged, provided the writer has not begun message number + slots by then.
    */
  lemma ReadFrameIsMessage(l: Layout, s: State, i: nat, t: nat)
    requires l.Valid() && Reachable(l, s) && i in s.readers && t < |s.readers[i].frames|
    requires s.readers[i].frames[t].sound && Complete(l, s.readers[i].frames[t])
    requires Started(s) <= s.readers[i].frames[t].number + l.Slots()
    ensures var frame := s.readers[i].frames[t];
            frame.number < |s.log| && Bytes(l, frame) == s.log[frame.number]
  {
    ReachableInv(l, s);
    FrameIsMessage(l, s, s.readers[i].frames[t]);
  }

  lemma FrameIsMessage(l: Layout, s: State, frame: Frame)
    requires l.Valid() && WriterInv(l, s) && FrameInv(l, s, frame) && Complete(l, frame) && frame.inTime && frame.sound
    ensures Bytes(l, frame) == s.log[frame.number]
  {
  }

  /** A published message can be read from its slot in every continuation, until the writer begins to reuse the slot. */
  lemma MessageStays(l: Layout, s: State, acts: seq<Action>, s': State, k: nat)
    requires l.Valid() && Reachable(l, s) && Run(l, s, acts, s')
    requires k < |s.log| && Started(s') <= k + l.Slots()
    ensures |s'.data| == l.size - l.header && SlotHolds(l, s'.data, k, s.log[k])
  {
    ReachableInv(l, s);
    RunKeepsInv(l, s, acts, s');
  }

  /**
    * The t-th frame since its last reset or seek that a reader was handed is that of message base + t, and if it was
    * read completely and in time, what was read is this message.
    */
  lemma ConsecutiveMessages(l: Layout, s: State, i: nat, t: nat)
    requires l.Valid() && Reachable(l, s) && i in s.readers && s.readers[i].trust == Exact
    requires s.readers[i].from + t < |s.readers[i].frames|
    ensures var x := s.readers[i];
            var frame := x.frames[x.from + t];
            && frame.number == x.base + t < x.idx <= |s.log|
            && (Complete(l, frame) && frame.inTime ==> Bytes(l, frame) == s.log[x.base + t])
  {
    ReachableInv(l, s);
    var frame := s.readers[i].frames[s.readers[i].from + t];
    if Complete(l, frame) && frame.inTime {
      FrameIsMessage(l, s, frame);
    }
  }

  /** A reader that keeps up has read exactly the messages from base to its position: none lost, doubled or swapped. */
  lemma NothingLost(l: Layout, s: State, i: nat)
    requires l.Valid() && Reachable(l, s) && i in s.readers && s.readers[i].trust == Exact
    requires s.readers[i].from <= |s.readers[i].frames|
    requires forall frame :: frame in s.readers[i].frames[s.readers[i].from..] ==> Complete(l, frame) && frame.inTime
    ensures var x := s.readers[i];
            var read := x.frames[x.from..];
            && x.base <= x.idx <= |s.log| && |read| == x.idx - x.base
            && forall t :: 0 <= t < |read| ==> Complete(l, read[t]) && Bytes(l, read[t]) == s.log[x.base..x.idx][t]
  {
    ReachableInv(l, s);
    hide FrameInv, WriterInv, Bytes, Complete;
    var x := s.readers[i];
    var read := x.frames[x.from..];
    forall t | 0 <= t < |read|
      ensures Complete(l, read[t]) && Bytes(l, read[t]) == s.log[x.base..x.idx][t]
    {
      assert read[t] in read;
      ConsecutiveMessages(l, s, i, t);
    }
  }

  /** After a seek that wraps and is not exact, nothing a reader is handed is a message, until its cursor wraps. */
  lemma SkewedReaderGetsNoMessage(l: Layout, s: State, i: nat, k: nat)
    requires l.Valid() && Reachable(l, s) && i in s.readers && s.readers[i].trust == Skew
    ensures var x := s.readers[i];
            && x.r.off != l.Off(k)
            && forall t :: x.from <= t < |x.frames| ==> x.frames[t].off != l.Off(k)
  {
    ReachableInv(l, s);
    hide Skewed;
    var x := s.readers[i];
    SkewedIsNoSlot(l, x.r.off, k);
    forall t | x.from <= t < |x.frames|
      ensures x.frames[t].off != l.Off(k)
    {
      SkewedIsNoSlot(l, x.frames[t].off, k);
    }
  }

  /** A seek gives a reader that is exact if and only if `SeekIsExact`, and any reset does. */
  lemma SeekTrust(l: Layout, s: State, i: nat, crush: nat)
    requires l.Valid() && Reachable(l, s) && Enabled(l, s, Seek(i, crush))
    ensures var x := Step(l, s, Seek(i, crush)).readers[i];
            && (x.trust == Exact <==> x.r == l.At(l.Oldest(|s.log|, crush)))
            && (x.trust == Exact ==> x.idx == l.Oldest(|s.log|, crush))
    ensures Step(l, s, Reset(i)).readers[i].trust == Exact
  {
    ReachableInv(l, s);
    SeekFindsOldest(l, |s.log|, crush);
  }

  // What goes in comes out

  /** The messages that the writers of a run were asked to log, in the order in which they got the lock. */
  function Asked(acts: seq<Action>): seq<Message> {
    if acts == [] then [] else (if acts[0].Acquire? then [acts[0].msg] else []) + Asked(acts[1..])
  }

  /** The published messages and the one being copied. */
  function Accepted(s: State): seq<Message> {
    s.log + if s.lock.Copying? then [s.lock.msg] else []
  }

  /** The history is what the writers were asked to log: nothing else, all of it, and in this order. */
  lemma {:induction false} LogIsAsked(l: Layout, s: State, acts: seq<Action>, s': State)
    requires l.Valid() && Run(l, s, acts, s')
    ensures Accepted(s') == Accepted(s) + Asked(acts)
    decreases |acts|
  {
    if acts != [] {
      AskedOnce(l, s, acts[0]);
      AskedSplit(acts);
      hide Accepted, Asked, Step, Enabled;
      LogIsAsked(l, Step(l, s, acts[0]), acts[1..], s');
      Assoc(Accepted(s), Asked([acts[0]]), Asked(acts[1..]));
    }
  }

  lemma Assoc(a: seq<Message>, b: seq<Message>, c: seq<Message>)
    ensures a + b + c == a + (b + c)
  {
  }

  lemma AskedSplit(acts: seq<Action>)
    requires acts != []
    ensures Asked(acts) == Asked([acts[0]]) + Asked(acts[1..])
  {
    assert [acts[0]][1..] == [];
  }

  lemma AskedOnce(l: Layout, s: State, a: Action)
    requires l.Valid() && Enabled(l, s, a)
    ensures Accepted(Step(l, s, a)) == Accepted(s) + Asked([a])
  {
    assert [a][1..] == [] && Asked([a]) == if a.Acquire? then [a.msg] else [];
  }

  /** From writer to reader: what a reader that keeps up has read is what the writers were asked to log, in order. */
  lemma ReadIsAsked(l: Layout, acts: seq<Action>, s: State, i: nat)
    requires l.Valid() && Run(l, Initial(l), acts, s) && i in s.readers && s.readers[i].trust == Exact
    requires s.readers[i].from <= |s.readers[i].frames|
    requires forall frame :: frame in s.readers[i].frames[s.readers[i].from..] ==> Complete(l, frame) && frame.inTime
    ensures var x := s.readers[i];
            var read := x.frames[x.from..];
            && x.base + |read| <= |Asked(acts)|
            && forall t :: 0 <= t < |read| ==> Complete(l, read[t]) && Bytes(l, read[t]) == Asked(acts)[x.base + t]
  {
    hide Run, Complete, Bytes, Asked;
    assert Reachable(l, s);
    NothingLost(l, s, i);
    LogIsAsked(l, Initial(l), acts, s);
    assert Accepted(Initial(l)) == [] && Asked(acts) == Accepted(s);
  }

  lemma {:induction false} RunAppend(l: Layout, s: State, a: seq<Action>, t: State, b: seq<Action>, u: State)
    requires l.Valid() && Run(l, s, a, t) && Run(l, t, b, u)
    ensures Run(l, s, a + b, u)
    decreases |a|
  {
    if a == [] {
      assert a + b == b;
    } else {
      assert (a + b)[0] == a[0] && (a + b)[1..] == a[1..] + b;
      RunAppend(l, Step(l, s, a[0]), a[1..], t, b, u);
    }
  }

  lemma RunOne(l: Layout, s: State, a: Action)
    requires l.Valid() && Enabled(l, s, a)
    ensures Run(l, s, [a], Step(l, s, a))
  {
    assert [a][1..] == [];
  }

  lemma Go(l: Layout, s: State, acts: seq<Action>, t: State, a: Action) returns (more: seq<Action>, u: State)
    requires l.Valid() && Run(l, s, acts, t) && Enabled(l, t, a)
    ensures Run(l, s, more, u) && u == Step(l, t, a)
  {
    RunOne(l, t, a);
    more, u := acts + [a], Step(l, t, a);
    RunAppend(l, s, acts, t, [a], u);
  }

  /** The writer copies the first j bytes. */
  lemma {:induction false} CopySome(l: Layout, s: State, j: nat) returns (acts: seq<Action>, t: State)
    requires l.Valid() && s.lock.Copying? && j <= |s.lock.msg| && s.w.off + |s.lock.msg| <= |s.data|
    ensures Run(l, s, acts, t) && |t.data| == |s.data|
    ensures t.lock.Copying? && t.lock.msg == s.lock.msg && (forall k :: 0 <= k < j ==> k in t.lock.done)
    ensures t.w == s.w && t.log == s.log
  {
    if j == 0 {
      acts, t := [], s;
    } else {
      var u;
      acts, u := CopySome(l, s, j - 1);
      hide Run;
      acts, t := Go(l, s, acts, u, CopyByte(j - 1));
    }
  }

  /** Whatever happened before, once the lock is free the next writer can log its message. */
  lemma CanLog(l: Layout, s: State, msg: Message)
    requires l.Valid() && Reachable(l, s) && s.lock.Free? && |msg| == l.frame
    ensures exists acts, t :: Run(l, s, acts, t) && t.log == s.log + [msg] && t.lock.Free?
  {
    ReachableInv(l, s);
    RunOne(l, s, Acquire(msg));
    var s1 := Step(l, s, Acquire(msg));
    var acts, t := CopySome(l, s1, l.frame);
    RunAppend(l, s, [Acquire(msg)], s1, acts, t);
    hide Run, WriterInv, ReaderInv;
    acts := [Acquire(msg)] + acts;
    acts, t := Go(l, s, acts, t, Publish);
    acts, t := Go(l, s, acts, t, Release);
  }

  /** The reader fetches the first j bytes of its last frame in time. */
  lemma {:induction false} FetchSome(l: Layout, s: State, i: nat, j: nat) returns (acts: seq<Action>, u: State)
    requires l.Valid() && i in s.readers && s.readers[i].frames != [] && j <= l.frame
    requires var frame := Last(s.readers[i]);
             frame.off + l.frame <= |s.data| && frame.inTime && Started(s) <= frame.number + l.Slots()
    ensures Run(l, s, acts, u) && i in u.readers && u.log == s.log && u.data == s.data && u.lock == s.lock
    ensures u.readers[i] == s.readers[i].(frames := u.readers[i].frames) && u.readers[i].frames != []
    ensures |u.readers[i].frames| == |s.readers[i].frames|
    ensures var was, now := Last(s.readers[i]), Last(u.readers[i]);
            now == was.(got := now.got) && forall k :: 0 <= k < j ==> k in now.got
  {
    if j == 0 {
      acts, u := [], s;
    } else {
      var v;
      acts, v := FetchSome(l, s, i, j - 1);
      hide Run;
      acts, u := Go(l, s, acts, v, Fetch(i, |v.readers[i].frames| - 1, j - 1));
    }
  }

  function Last(x: Reader): Frame
    requires x.frames != []
  {
    x.frames[|x.frames| - 1]
  }

  /** A reader that lags by less than the ring can read the next message, also while another one is being copied. */
  lemma CanRead(l: Layout, s: State, i: nat)
    requires l.Valid() && Reachable(l, s) && i in s.readers && s.readers[i].trust == Exact
    requires 0 < |s.log| - s.readers[i].idx < l.Slots()
    ensures exists acts, u ::
              && Run(l, s, acts, u) && i in u.readers && u.readers[i].idx == s.readers[i].idx + 1
              && u.readers[i].frames != [] && Complete(l, Last(u.readers[i]))
              && Bytes(l, Last(u.readers[i])) == s.log[s.readers[i].idx]
  {
    ReachableInv(l, s);
    var k := s.readers[i].idx;
    HasDataAgrees(l, |s.log|, k);
    assert Status(l, s, i) == NEW_DATA;
    RunOne(l, s, Check(i));
    var acts, u := [Check(i)], Step(l, s, Check(i));
    acts, u := Go(l, s, acts, u, Take(i));
    var more, v := FetchSome(l, u, i, l.frame);
    RunAppend(l, s, acts, u, more, v);
    acts := acts + more;
    RunKeepsInv(l, s, acts, v);
    hide Run;
    FrameIsMessage(l, v, Last(v.readers[i]));
  }
}
