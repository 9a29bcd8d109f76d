/** Index arithmetic of the shared-memory log: cursors of 32-bit words against unbounded message numbers. */
module RingLayout {
  import opened Common
  import DivMod

  /** A (wrap, off) pair as it is kept in shared memory and in each client. */
  datatype Cursor = Cursor(wrap: nat, off: nat)

  datatype ReadStatus = NO_DATA | NEW_DATA | OVERRUN | ERROR

  /** Total size of the mapping, size of its header and size of one frame, in bytes. */
  datatype Layout = Layout(size: nat, header: nat, frame: nat) {

    ghost predicate Valid() {
      0 < frame && header + frame <= size < 0x8000_0000
    }

    /** How many frames fit. */
    function Slots(): (n: nat)
      requires Valid()
      ensures 0 < n && n * frame <= size - header < n * frame + frame
    {
      var n := (size - header) / frame;
      assert n * frame + (size - header) % frame == size - header;
      assert n > 0 by { if n <= 0 { DivMod.Grow(n, 0, frame); } }
      n
    }

    /** Bytes behind the last whole frame. */
    function Slack(): nat
      requires Valid()
    {
      size - header - Slots() * frame
    }

    /** Offset of the slot that message k is stored in. */
    function Off(k: nat): (off: nat)
      requires Valid()
      ensures off + frame <= size - header
    {
      DivMod.Grow(k % Slots() + 1, Slots(), frame);
      assert (k % Slots() + 1) * frame == k % Slots() * frame + frame;
      k % Slots() * frame
    }

    /** The cursor that stands for message number k. */
    function At(k: nat): Cursor
      requires Valid()
    {
      Cursor(k / Slots() % WORD, Off(k))
    }

    /** The cursor one frame further, as the writer and the reader both compute it. */
    function Advance(c: Cursor): Cursor
      requires Valid()
    {
      var off := (c.off + frame) % WORD;
      if off > size - frame - header then Cursor((c.wrap + 1) % WORD, 0) else Cursor(c.wrap, off)
    }

    /** What the reader makes of a write and a read cursor; the wrap distance is a 32-bit subtraction. */
    function HasData(w: Cursor, r: Cursor): ReadStatus {
      var d := (w.wrap - r.wrap) % WORD;
      if w.off == r.off && w.wrap == r.wrap then NO_DATA
      else if (w.off > r.off && w.wrap == r.wrap) || (w.off < r.off && d == 1) then NEW_DATA
      else if d >= 2 || (w.off >= r.off && d == 1) then OVERRUN
      else ERROR
    }

    /** The read cursor chosen for the oldest message at least `crush` frames ahead of the writer. */
    function Seek(w: Cursor, crush: nat): Cursor {
      var off := (w.off + crush * frame % WORD) % WORD;
      if off > size - frame - header then Cursor(w.wrap, (off - size + header) % WORD)
      else if w.wrap == 0 then Cursor(0, 0)
      else Cursor(w.wrap - 1, off)
    }

    /** The oldest message that is still there and at least `crush` messages from being overwritten. */
    function Oldest(w: nat, crush: nat): nat
      requires Valid()
    {
      if w + crush <= Slots() then 0 else w + crush - Slots()
    }

    /** When `Seek` finds that message: wrapping needs whole frames, the other branch a non-zero wrap counter. */
    predicate SeekIsExact(w: nat, crush: nat)
      requires Valid()
    {
      if w % Slots() + crush >= Slots() then Slack() == 0 else w < Slots() || w / Slots() % WORD != 0
    }
  }

  /** The status that unbounded message numbers would give. */
  function Classify(distance: nat, slots: nat): ReadStatus {
    if distance == 0 then NO_DATA else if distance < slots then NEW_DATA else OVERRUN
  }

  lemma OffBounds(l: Layout, k: nat)
    requires l.Valid()
    ensures l.Off(k) % l.frame == 0 && l.Off(k) / l.frame == k % l.Slots()
    ensures l.Off(k) + l.frame <= l.size - l.header
  {
    DivMod.Unique(l.Off(k), l.frame, k % l.Slots(), 0);
  }

  /** The reader's and writer's wrap test fires exactly behind the last whole slot, also when bytes are left over. */
  lemma OffStep(l: Layout, k: nat)
    requires l.Valid()
    ensures k % l.Slots() + 1 < l.Slots() ==>
              l.Off(k + 1) == l.Off(k) + l.frame <= l.size - l.frame - l.header
    ensures k % l.Slots() + 1 == l.Slots() ==>
              l.Off(k + 1) == 0 && l.Off(k) + l.frame > l.size - l.frame - l.header
  {
    var n, i, f := l.Slots(), k % l.Slots(), l.frame;
    DivMod.Succ(k, n);
    assert (i + 1) * f == i * f + f;
    if i + 1 < n {
      assert (i + 2) * f == i * f + 2 * f;
      DivMod.Grow(i + 2, n, f);
    }
  }

  /** Advancing the cursor of message k gives the cursor of message k + 1, through every wrap of either word. */
  lemma AdvanceIsSuccessor(l: Layout, k: nat)
    requires l.Valid()
    ensures l.Advance(l.At(k)) == l.At(k + 1)
  {
    var off := l.Off(k);
    assert (off + l.frame) % WORD == off + l.frame;
    OffStep(l, k);
    DivMod.Succ(k, l.Slots());
    if k % l.Slots() + 1 == l.Slots() {
      WrapStep(k / l.Slots());
    }
  }

  lemma WrapStep(x: nat)
    ensures (x % WORD + 1) % WORD == (x + 1) % WORD
  {
  }

  lemma WrapDiff(a: int, b: int)
    ensures (a % WORD - b % WORD) % WORD == (a - b) % WORD
  {
  }

  /** How far the write cursor is ahead as far as the two cursors can tell. */
  function Visible(l: Layout, w: nat, r: nat): (d: nat)
    requires l.Valid()
    ensures d < l.Slots() * WORD
  {
    (w - r) % (l.Slots() * WORD)
  }

  /** The visible distance from laps and slots. */
  lemma VisibleFromLaps(l: Layout, w: nat, r: nat)
    requires l.Valid()
    ensures var n := l.Slots();
            var m := (w / n - r / n) % WORD;
            var d := m * n + w % n - r % n;
            Visible(l, w, r) == if d >= 0 then d else d + n * WORD
  {
    var n := l.Slots();
    var lap := w / n - r / n;
    var m, q := lap % WORD, lap / WORD;
    var d := m * n + w % n - r % n;
    LapDistance(n, w, r);
    assert lap * n == q * (n * WORD) + m * n by {
      assert lap == q * WORD + m;
      assert (q * WORD + m) * n == q * WORD * n + m * n;
      assert q * WORD * n == q * (n * WORD);
    }
    LapBound(n, m);
    if d >= 0 {
      DivMod.Unique(w - r, n * WORD, q, d);
    } else {
      DivMod.Grow(0, m, n);
      assert (q - 1) * (n * WORD) == q * (n * WORD) - n * WORD;
      DivMod.Unique(w - r, n * WORD, q - 1, d + n * WORD);
    }
  }

  /** The report in terms of laps modulo 2^32 and slot numbers. */
  lemma HasDataFromLaps(l: Layout, x: nat, i: nat, y: nat, j: nat)
    requires 0 < l.frame
    ensures l.HasData(Cursor(x % WORD, i * l.frame), Cursor(y % WORD, j * l.frame)) ==
            StatusOfLaps((x - y) % WORD, i, j)
  {
    WrapDiff(x, y);
    if i != j {
      DivMod.Disjoint(i, j, l.frame);
      DivMod.Grow(i, if i < j then j else i, l.frame);
      DivMod.Grow(j, if i < j then j else i, l.frame);
    }
  }

  function StatusOfLaps(m: nat, i: nat, j: nat): ReadStatus {
    if m == 0 then (if i == j then NO_DATA else if i > j then NEW_DATA else ERROR)
    else if m == 1 && i < j then NEW_DATA
    else OVERRUN
  }

  lemma StatusOfDistance(n: nat, m: nat, i: nat, j: nat)
    requires m < WORD && i < n && j < n
    ensures var e := m * n + i - j;
            var d := if e >= 0 then e else e + n * WORD;
            StatusOfLaps(m, i, j) ==
            if d == 0 then NO_DATA
            else if d < n then NEW_DATA
            else if d < n * WORD - j then OVERRUN
            else ERROR
  {
    LapBound(n, m);
    if m >= 2 {
      DivMod.Grow(2, m, n);
    }
  }

  /** The status that the visible distance gives. */
  function Report(l: Layout, w: nat, r: nat): ReadStatus
    requires l.Valid()
  {
    var n, d := l.Slots(), Visible(l, w, r);
    if d == 0 then NO_DATA
    else if d < n then NEW_DATA
    else if d < n * WORD - r % n then OVERRUN
    else ERROR
  }

  /** What the reader reports for any two message numbers, whatever wrapped and whoever is ahead. */
  lemma HasDataExact(l: Layout, w: nat, r: nat)
    requires l.Valid()
    ensures l.HasData(l.At(w), l.At(r)) == Report(l, w, r)
  {
    var n := l.Slots();
    VisibleFromLaps(l, w, r);
    HasDataFromLaps(l, w / n, w % n, r / n, r % n);
    StatusOfDistance(n, (w / n - r / n) % WORD, w % n, r % n);
  }

  /** A reader less than 2^32 laps behind: the cursors show the true distance. */
  lemma VisibleIsTrue(l: Layout, w: nat, r: nat)
    requires l.Valid() && r <= w && w / l.Slots() - r / l.Slots() < WORD
    ensures Visible(l, w, r) == w - r < l.Slots() * WORD - r % l.Slots()
  {
    var n := l.Slots();
    var m := w / n - r / n;
    LapsMonotone(r, w, n);
    VisibleFromLaps(l, w, r);
    LapBound(n, m);
    LapDistance(n, w, r);
  }

  /** The message at the visible distance is in the reader's slot, and is the reader's own if nothing was missed. */
  lemma VisibleBack(l: Layout, w: nat, r: nat)
    requires l.Valid() && r <= w
    ensures var k := w - Visible(l, w, r);
            r <= k && k % l.Slots() == r % l.Slots() && (k == r <==> w - r < l.Slots() * WORD)
  {
    var n := l.Slots();
    var q := DivMod.Rounds(w - r, n * WORD);
    RoundsAhead(n, r, q);
  }

  lemma RoundsAhead(n: nat, r: nat, q: int)
    requires n > 0 && q >= 0
    ensures (r + q * (n * WORD)) % n == r % n && q * (n * WORD) >= 0
  {
    assert q * (n * WORD) == q * WORD * n;
    DivMod.AddRounds(r, q * WORD, n);
  }

  lemma LapDistance(n: nat, w: nat, r: nat)
    requires n > 0
    ensures w - r == (w / n - r / n) * n + w % n - r % n
  {
    assert w == w / n * n + w % n && r == r / n * n + r % n;
    assert (w / n - r / n) * n == w / n * n - r / n * n;
  }

  lemma LapBound(n: nat, m: nat)
    requires m < WORD
    ensures m * n + n <= n * WORD
  {
    DivMod.Grow(m + 1, WORD, n);
    assert (m + 1) * n == m * n + n;
  }

  /**
    * Against unbounded message numbers the report is right whenever the reader is less than 2^32 laps behind,
    * and beyond that exactly when the visible distance is an overrun too.
    */
  lemma HasDataAgrees(l: Layout, w: nat, r: nat)
    requires l.Valid() && r <= w
    ensures l.HasData(l.At(w), l.At(r)) == Classify(w - r, l.Slots()) <==>
            w - r < l.Slots() || l.Slots() <= Visible(l, w, r) < l.Slots() * WORD - r % l.Slots()
    ensures w / l.Slots() - r / l.Slots() < WORD ==>
              l.HasData(l.At(w), l.At(r)) == Classify(w - r, l.Slots())
  {
    HasDataExact(l, w, r);
    if w - r < l.Slots() {
      DivMod.Unique(w - r, l.Slots() * WORD, 0, w - r);
    }
    if w / l.Slots() - r / l.Slots() < WORD {
      VisibleIsTrue(l, w, r);
    }
  }

  lemma LapsMonotone(a: nat, b: nat, n: nat)
    requires n > 0 && a <= b
    ensures a / n <= b / n
  {
    assert a == a / n * n + a % n && b == b / n * n + b % n;
    if a / n >= b / n + 1 {
      DivMod.Grow(b / n + 1, a / n, n);
    }
  }

  lemma OldestLap(w: nat, n: nat, q: nat, i: nat, crush: nat)
    requires w == q * n + i && i < n && 1 <= crush <= n
    ensures var k := if w + crush <= n then 0 else w + crush - n;
            if i + crush >= n then k / n == q && k % n == i + crush - n
            else if q == 0 then k == 0
            else k / n == q - 1 && k % n == i + crush
  {
    if q > 0 {
      DivMod.Grow(1, q, n);
      assert (q - 1) * n == q * n - n;
      DivMod.Unique(w + crush - n, n, if i + crush >= n then q else q - 1,
                    if i + crush >= n then i + crush - n else i + crush);
    } else if i + crush >= n {
      DivMod.Unique(i + crush - n, n, 0, i + crush - n);
    }
  }

  lemma OldestNumber(l: Layout, w: nat, crush: nat)
    requires l.Valid() && 1 <= crush <= l.Slots()
    ensures var n := l.Slots();
            var k := l.Oldest(w, crush);
            if w % n + crush >= n then k / n == w / n && k % n == w % n + crush - n
            else if w / n == 0 then k == 0
            else k / n == w / n - 1 && k % n == w % n + crush
  {
    OldestOf(w, l.Slots(), crush);
  }

  lemma OldestOf(w: nat, n: nat, crush: nat)
    requires 1 <= crush <= n
    ensures var k := if w + crush <= n then 0 else w + crush - n;
            if w % n + crush >= n then k / n == w / n && k % n == w % n + crush - n
            else if w / n == 0 then k == 0
            else k / n == w / n - 1 && k % n == w % n + crush
  {
    DivMod.Parts(w, n);
    OldestLap(w, n, w / n, w % n, crush);
  }

  /** The offset test of the seek: it wraps exactly when slot number plus crush zone reaches the slot count. */
  lemma SeekOffset(n: nat, f: nat, slack: nat, i: nat, crush: nat)
    requires 1 <= crush <= n && i < n && slack < f
    requires n * f + slack < 0x8000_0000
    ensures (i * f + crush * f % WORD) % WORD == (i + crush) * f
    ensures (i + crush) * f > n * f + slack - f <==> i + crush >= n
    ensures i + crush >= n ==>
              (i + crush) * f - n * f == (i + crush - n) * f && 0 <= (i + crush - n) * f < 0x8000_0000
  {
    DivMod.Grow(i, n, f);
    DivMod.Grow(crush, n, f);
    DivMod.Grow(0, crush, f);
    DivMod.Grow(0, i, f);
    DivMod.Plus(i, crush, f);
    SmallSum(i * f, crush * f);
    if i + crush >= n {
      DivMod.Grow(n, i + crush, f);
      DivMod.Plus(i + crush - n, n, f);
    } else {
      DivMod.Plus(i + crush, 1, f);
      DivMod.Grow(i + crush + 1, n, f);
    }
  }

  lemma SmallSum(x: int, y: int)
    requires 0 <= x < 0x8000_0000 && 0 <= y < 0x8000_0000
    ensures (x + y % WORD) % WORD == x + y
  {
  }

  /** The offset that a seek stores after wrapping: short by the bytes behind the last whole frame. */
  lemma WrappedSeek(l: Layout, i: nat, crush: nat, wrap: nat)
    requires l.Valid() && 1 <= crush <= l.Slots() && i < l.Slots()
    ensures i + crush < l.Slots() ==> l.Seek(Cursor(wrap, i * l.frame), crush) ==
                                      if wrap == 0 then Cursor(0, 0) else Cursor(wrap - 1, (i + crush) * l.frame)
    ensures i + crush >= l.Slots() ==> l.Seek(Cursor(wrap, i * l.frame), crush) ==
                                       Cursor(wrap, ((i + crush - l.Slots()) * l.frame - l.Slack()) % WORD)
    ensures i + crush >= l.Slots() ==> 0 <= (i + crush - l.Slots()) * l.frame < 0x8000_0000
  {
    var n, off := l.Slots(), (i + crush) * l.frame;
    SeekOffset(n, l.frame, l.Slack(), i, crush);
    assert off > l.size - l.frame - l.header <==> i + crush >= n;
    if i + crush >= n {
      assert off - l.size + l.header == (i + crush - n) * l.frame - l.Slack();
    }
  }

  lemma ShortOffset(x: nat, slack: nat)
    requires x < 0x8000_0000 && slack < 0x8000_0000
    ensures (x - slack) % WORD == x <==> slack == 0
  {
  }

  /** `SeekFindsOldest` in laps and slots: the target is lap y, slot j. */
  lemma SeekFromLaps(l: Layout, x: nat, i: nat, crush: nat, y: nat, j: nat)
    requires l.Valid() && 1 <= crush <= l.Slots() && i < l.Slots()
    requires if i + crush >= l.Slots() then y == x && j == i + crush - l.Slots()
             else if x == 0 then y == j == 0
             else y == x - 1 && j == i + crush
    ensures l.Seek(Cursor(x % WORD, i * l.frame), crush) == Cursor(y % WORD, j * l.frame) <==>
            if i + crush >= l.Slots() then l.Slack() == 0 else x == 0 || x % WORD != 0
  {
    WrappedSeek(l, i, crush, x % WORD);
    if i + crush >= l.Slots() {
      ShortOffset(j * l.frame, l.Slack());
    } else if x != 0 && x % WORD == 0 {
      DivMod.Grow(1, i + crush, l.frame);
    } else if x != 0 {
      PreviousLap(x);
    }
  }

  /** Seeking lands on the oldest safe message exactly under `SeekIsExact`. */
  lemma SeekFindsOldest(l: Layout, w: nat, crush: nat)
    requires l.Valid() && 1 <= crush <= l.Slots()
    ensures l.Seek(l.At(w), crush) == l.At(l.Oldest(w, crush)) <==> l.SeekIsExact(w, crush)
  {
    var n, k := l.Slots(), l.Oldest(w, crush);
    DivMod.FirstRound(w, n);
    OldestNumber(l, w, crush);
    if w % n + crush < n && w / n == 0 {
      DivMod.Unique(0, n, 0, 0);
    }
    SeekFromLaps(l, w / n, w % n, crush, k / n, k % n);
  }

  lemma PreviousLap(x: nat)
    requires x % WORD != 0
    ensures (x - 1) % WORD == x % WORD - 1
  {
  }

  /** An offset at which no message starts: outside the data area, or overlapping two slots. */
  predicate Skewed(l: Layout, off: nat)
    requires l.Valid()
  {
    l.Slack() > 0 &&
    (off == WORD - l.Slack() || (off % l.frame == l.frame - l.Slack() && off + l.frame <= l.size - l.header))
  }

  lemma SkewedIsNoSlot(l: Layout, off: nat, k: nat)
    requires l.Valid() && Skewed(l, off)
    ensures off != l.Off(k)
  {
    OffBounds(l, k);
  }

  /** Where a seek ends up that wraps and is not exact. */
  lemma SeekIsSkewed(l: Layout, w: nat, crush: nat)
    requires l.Valid() && 1 <= crush <= l.Slots()
    requires w % l.Slots() + crush >= l.Slots() && !l.SeekIsExact(w, crush)
    ensures Skewed(l, l.Seek(l.At(w), crush).off)
  {
    var n, s := l.Slots(), l.Slack();
    var j := w % n + crush - n;
    WrappedSeek(l, w % n, crush, w / n % WORD);
    SkewBack(j, n, l.frame, s);
    ShortSkew(j * l.frame, s);
  }

  lemma SkewBack(j: nat, n: nat, f: nat, s: nat)
    requires j < n && 0 < s < f
    ensures j == 0 ==> j * f == 0
    ensures j > 0 ==> j * f >= s && (j * f - s) % f == f - s
    ensures j * f + f <= n * f
  {
    DivMod.Plus(j, 1, f);
    DivMod.Grow(j + 1, n, f);
    if j > 0 {
      DivMod.Plus(j - 1, 1, f);
      DivMod.Grow(0, j - 1, f);
      DivMod.Unique(j * f - s, f, j - 1, f - s);
    }
  }

  lemma ShortSkew(x: nat, s: nat)
    requires x < 0x8000_0000 && 0 < s < 0x8000_0000
    ensures (x - s) % WORD == if x >= s then x - s else WORD + x - s
  {
  }

  /** Advancing keeps it so, until the cursor wraps. */
  lemma SkewStays(l: Layout, c: Cursor)
    requires l.Valid() && Skewed(l, c.off)
    ensures l.Advance(c).off == 0 || Skewed(l, l.Advance(c).off)
  {
    NextSkew(c.off, l.frame, l.Slack(), l.size - l.header);
  }

  lemma NextSkew(off: nat, f: nat, s: nat, end: nat)
    requires 0 < s < f <= end < 0x8000_0000
    requires off == WORD - s || (off % f == f - s && off + f <= end)
    ensures var next := (off + f) % WORD;
            next <= end - f ==> next % f == f - s
  {
    if off == WORD - s {
      DivMod.Unique(f - s, f, 0, f - s);
    } else {
      DivMod.AddRounds(off, 1, f);
    }
  }

  /** After an exact seek, the reader is overrun by the crush-th publish from a full ring, and by no earlier one. */
  lemma SeekKeepsDistance(l: Layout, w: nat, crush: nat, k: nat)
    requires l.Valid() && 1 <= crush <= l.Slots()
    requires k <= crush
    ensures l.HasData(l.At(w + k), l.At(l.Oldest(w, crush))) == OVERRUN <==>
            k == crush && w + crush >= l.Slots()
  {
    var n := l.Slots();
    var r := l.Oldest(w, crush);
    HasDataExact(l, w + k, r);
    assert 2 * n <= n * WORD;
    DivMod.Unique(w + k - r, n * WORD, 0, w + k - r);
  }

  /** The size that the writer allocates counts only the cursor, not the spinlock before it: frames never divide it. */
  lemma ShippedSizeHasSlack(frame: nat, depth: nat)
    requires 8 < frame && 2 <= depth && 8 + frame * depth < 0x8000_0000
    ensures var l := Layout(8 + frame * depth, 16, frame);
            l.Valid() && l.Slots() == depth - 1 && l.Slack() == frame - 8
  {
    var l := Layout(8 + frame * depth, 16, frame);
    DivMod.Grow(2, depth, frame);
    assert l.size - l.header == (depth - 1) * frame + (frame - 8);
    DivMod.Unique(l.size - l.header, frame, depth - 1, frame - 8);
  }

  /** With the shipped numbers a seek can leave the mapping altogether. */
  lemma ShippedSeekMisses()
    ensures var l := Layout(8 + 216 * 10000, 16, 216);
            l.Valid() && l.Slots() == 9999 && l.Oldest(9899, 100) == 0 &&
            l.Seek(l.At(9899), 100) == Cursor(0, 0xFFFF_FF30)
  {
    ShippedSizeHasSlack(216, 10000);
  }
}
