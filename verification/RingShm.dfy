/** The shared buffer and its clients as the sources write them, updated in place and proved against message numbers. */
module RingShm {
  import opened Common
  import opened RingLayout
  import opened RingProtocol
  import DivMod

  /** The mapped region together with the writer's sizes. `log` is the history of all messages. */
  class LogShm {
    const l: Layout
    const data: array<Byte>
    var w: Cursor
    ghost var log: seq<Message>

    ghost predicate Valid()
      reads this, data
    {
      && l.Valid()
      && data.Length == l.size - l.header
      && w == l.At(|log|)
      && forall k: nat :: k < |log| <= k + l.Slots() ==> SlotHolds(l, data[..], k, log[k])
    }

    constructor (l: Layout)
      requires l.Valid()
      ensures Valid() && fresh(data) && this.l == l && log == []
    {
      this.l := l;
      data := new Byte[l.size - l.header](_ => 0);
      w := Cursor(0, 0);
      log := [];
      new;
      DivMod.Unique(0, l.Slots(), 0, 0);
    }

    /** Moves the cursor of message k to that of message k + 1. */
    method IncWoff(inc: nat, ghost k: nat)
      requires l.Valid() && inc == l.frame && w == l.At(k)
      modifies this`w
      ensures w == l.At(k + 1)
    {
      AdvanceIsSuccessor(l, k);
      var next := w;
      next := next.(off := (next.off + inc) % WORD);
      if next.off > l.size - l.frame - l.header {
        next := Cursor((next.wrap + 1) % WORD, 0);
      }
      w := next;
    }

    /** Logging appends exactly this message; the youngest Slots() messages stay readable in the buffer. */
    method Log(msg: Message)
      requires Valid() && |msg| == l.frame
      modifies this, data
      ensures Valid()
      ensures log == old(log) + [msg]
    {
      var at := w.off;
      ghost var was := data[..];
      forall j | 0 <= j < l.frame {
        data[at + j] := msg[j];
      }
      forall k: nat | k < |log| < k + l.Slots()
        ensures SlotHolds(l, data[..], k, log[k])
      {
        assert SlotHolds(l, was, k, log[k]);
        DivMod.Distinct(k, |log|, l.Slots());
        DivMod.Disjoint(k % l.Slots(), |log| % l.Slots(), l.frame);
      }
      IncWoff(l.frame, |log|);
      log := log + [msg];
    }
  }

  /** A reader's private cursor. `idx` is the number of the next message it will read. */
  class LogClient {
    const buf: LogShm
    var r: Cursor
    ghost var idx: nat

    ghost predicate Valid()
      reads this, buf, buf.data
    {
      && buf.Valid()
      && r == buf.l.At(idx)
      && idx <= |buf.log|
    }

    constructor (buf: LogShm)
      requires buf.Valid()
      ensures Valid() && this.buf == buf && idx == |buf.log|
    {
      this.buf := buf;
      r := buf.w;
      idx := |buf.log|;
    }

    /** The status is decided by the number of unread messages, as far as the cursors show it. */
    method HasData() returns (ret: ReadStatus)
      requires Valid()
      ensures ret == Report(buf.l, |buf.log|, idx)
      ensures |buf.log| / buf.l.Slots() - idx / buf.l.Slots() < WORD ==>
                ret == Classify(|buf.log| - idx, buf.l.Slots())
    {
      var w, r := buf.w, this.r;
      if w.off == r.off && w.wrap == r.wrap {
        ret := NO_DATA;
      } else if (w.off > r.off && w.wrap == r.wrap) || (w.off < r.off && (w.wrap - r.wrap) % WORD == 1) {
        ret := NEW_DATA;
      } else if (w.wrap - r.wrap) % WORD >= 2 || (w.off >= r.off && (w.wrap - r.wrap) % WORD == 1) {
        ret := OVERRUN;
      } else {
        ret := ERROR;
      }
      assert ret == buf.l.HasData(w, r);
      HasDataExact(buf.l, |buf.log|, idx);
      HasDataAgrees(buf.l, |buf.log|, idx);
    }

    method CalcNextRoff() returns (next: Cursor)
      requires Valid()
      ensures next == buf.l.At(idx + 1)
    {
      next := r.(off := (r.off + buf.l.frame) % WORD);
      if next.off > buf.l.size - buf.l.frame - buf.l.header {
        next := Cursor((next.wrap + 1) % WORD, 0);
      }
      AdvanceIsSuccessor(buf.l, idx);
    }

    /**
      * A consuming read: new data is the next message as logged, unless 2^32 rounds were missed, and anything else
      * leaves the cursor alone.
      */
    method ReadFrame() returns (ret: ReadStatus, frame: nat)
      requires Valid()
      modifies this
      ensures Valid()
      ensures ret == Report(buf.l, |buf.log|, old(idx))
      ensures ret != NEW_DATA ==> idx == old(idx)
      ensures ret == NEW_DATA ==>
                var k := |buf.log| - Visible(buf.l, |buf.log|, old(idx));
                && idx == old(idx) + 1
                && 0 <= k < |buf.log| && (k == old(idx) <==> |buf.log| - old(idx) < buf.l.Slots() * WORD)
                && frame + buf.l.frame <= buf.data.Length
                && buf.data[frame..frame + buf.l.frame] == buf.log[k]
    {
      frame := 0;
      ret := HasData();
      if ret != NEW_DATA {
        return;
      }
      frame := r.off;
      r := CalcNextRoff();
      VisibleBack(buf.l, |buf.log|, idx);
      ghost var k := |buf.log| - Visible(buf.l, |buf.log|, idx);
      assert SlotHolds(buf.l, buf.data[..], k, buf.log[k]);
      idx := idx + 1;
    }

    method ResetRead()
      requires buf.Valid()
      modifies this
      ensures Valid() && idx == |buf.log|
    {
      r := buf.w;
      idx := |buf.log|;
    }

    /**
      * Moves to the oldest message that is at least `crush` messages from being overwritten, when `SeekIsExact`;
      * `SeekFindsOldest` shows that it does so in no other case.
      */
    method SeekToOldest(crush: nat)
      requires buf.Valid() && 1 <= crush <= buf.l.Slots()
      modifies this
      ensures r == buf.l.Seek(buf.w, crush)
      ensures buf.l.SeekIsExact(|buf.log|, crush) ==> Valid() && idx == buf.l.Oldest(|buf.log|, crush)
    {
      var l := buf.l;
      var next := buf.w;
      next := next.(off := (next.off + crush * l.frame % WORD) % WORD);
      if next.off > l.size - l.frame - l.header {
        next := next.(off := (next.off - l.size + l.header) % WORD);
      } else if next.wrap == 0 {
        next := next.(off := 0);
      } else {
        next := next.(wrap := next.wrap - 1);
      }
      SeekFindsOldest(l, |buf.log|, crush);
      r := next;
      idx := l.Oldest(|buf.log|, crush);
    }
  }
}
