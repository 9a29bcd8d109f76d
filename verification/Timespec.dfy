/** Time values as seconds and nanoseconds, updated through out pointers that may alias, against plain integers. */
module Timespec {
  import DivMod

  const NSEC: int := 1_000_000_000
  const LONG_MAX: int := 0x7FFF_FFFF_FFFF_FFFF

  predicate InLong(x: int) {
    -LONG_MAX - 1 <= x <= LONG_MAX
  }

  /** Division and remainder that truncate toward zero. */
  function Quot(a: int, b: int): int
    requires b != 0
  {
    if (a >= 0) == (b > 0) then Abs(a) / Abs(b) else -(Abs(a) / Abs(b))
  }

  function Rem(a: int, b: int): int
    requires b != 0
  {
    a - Quot(a, b) * b
  }

  /** Truncation: the remainder is smaller than the divisor and has the sign of the dividend. */
  lemma QuotTruncates(a: int, b: int)
    requires b != 0
    ensures a == Quot(a, b) * b + Rem(a, b) && Abs(Rem(a, b)) < Abs(b)
    ensures a >= 0 ==> Rem(a, b) >= 0
    ensures a <= 0 ==> Rem(a, b) <= 0
  {
    var q, r := Abs(a) / Abs(b), Abs(a) % Abs(b);
    DivMod.Parts(Abs(a), Abs(b));
    assert Quot(a, b) == if (a >= 0) == (b > 0) then q else 0 - q;
    hide Quot;
    Signed(q, Abs(b), b);
    assert Quot(a, b) * b == if a >= 0 then q * Abs(b) else 0 - q * Abs(b);
  }

  lemma Signed(q: int, y: int, b: int)
    requires b == y || b == -y
    ensures b == y ==> q * b == q * y && -q * b == -(q * y)
    ensures b == -y ==> q * b == -(q * y) && -q * b == q * y
  {
  }

  function Abs(x: int): nat {
    if x < 0 then -x else x
  }

  datatype Ts = Ts(sec: int, nsec: int) {
    function Ns(): int {
      sec * NSEC + nsec
    }

    /** At most one second in nsec, and no opposite signs. */
    predicate Normal() {
      -NSEC < nsec < NSEC && !(sec > 0 && nsec < 0) && !(sec < 0 && nsec > 0)
    }
  }

  /** The normal form of an amount of nanoseconds. */
  function Canon(ns: int): Ts {
    Ts(Quot(ns, NSEC), Rem(ns, NSEC))
  }

  lemma CanonIsNormal(ns: int)
    ensures Canon(ns).Normal() && Canon(ns).Ns() == ns
    ensures ns >= 0 ==> Canon(ns).sec >= 0 && Canon(ns).nsec >= 0
  {
  }

  /** An amount has one normal form only. */
  lemma NormalIsUnique(a: Ts)
    requires a.Normal()
    ensures a == Canon(a.Ns())
  {
    if a.sec >= 0 && a.nsec >= 0 {
      assert a.Ns() / NSEC == a.sec;
    } else {
      assert (-a.Ns()) / NSEC == -a.sec;
    }
  }

  function Sign(x: int): int {
    if x > 0 then 1 else if x < 0 then -1 else 0
  }

  function Cmp(a: Ts, b: Ts): int {
    if a.sec > b.sec then 1 else if a.sec < b.sec then -1
    else if a.nsec > b.nsec then 1 else if a.nsec < b.nsec then -1 else 0
  }

  /** On normal forms the field-wise comparison is the order of the amounts. */
  lemma CmpIsOrder(a: Ts, b: Ts)
    requires a.Normal() && b.Normal()
    ensures Cmp(a, b) == Sign(a.Ns() - b.Ns())
  {
  }

  class Timespec {
    var sec: int
    var nsec: int

    constructor (sec: int, nsec: int)
      ensures this.sec == sec && this.nsec == nsec
    {
      this.sec, this.nsec := sec, nsec;
    }

    function Value(): Ts
      reads this
    {
      Ts(sec, nsec)
    }

    /** Normalising keeps the amount and yields its normal form; no step overflows if the first quotient fits. */
    method Norm()
      requires InLong(sec) && InLong(nsec) && InLong(sec + Quot(nsec, NSEC))
      modifies this
      ensures Value() == Canon(old(Value().Ns()))
      ensures InLong(sec) && InLong(nsec)
    {
      if nsec >= NSEC {
        sec := sec + Quot(nsec, NSEC);
        nsec := Rem(nsec, NSEC);
      }
      if nsec <= -NSEC {
        sec := sec + Quot(nsec, NSEC);
        nsec := Rem(nsec, -NSEC);
      }
      assert InLong(sec) && InLong(nsec);
      if sec > 0 && nsec < 0 {
        sec := sec - 1;
        nsec := nsec + NSEC;
      }
      if sec < 0 && nsec > 0 {
        sec := sec + 1;
        nsec := nsec - NSEC;
      }
      assert Value().Ns() == old(Value().Ns());
      NormalIsUnique(Value());
    }
  }

  /** Both fields of a sum or difference fit before and after normalising. */
  predicate Fits(sec: int, nsec: int) {
    InLong(sec) && InLong(nsec) && InLong(sec + Quot(nsec, NSEC))
  }

  method TsSub(ts1: Timespec, ts2: Timespec, out: Timespec)
    requires Fits(ts1.sec - ts2.sec, ts1.nsec - ts2.nsec)
    modifies out
    ensures out.Value() == Canon(old(ts1.Value().Ns()) - old(ts2.Value().Ns()))
  {
    out.sec := ts1.sec - ts2.sec;
    out.nsec := ts1.nsec - ts2.nsec;
    out.Norm();
  }

  /** The sum is right also when the result replaces an operand. */
  method TsAdd(ts1: Timespec, ts2: Timespec, out: Timespec)
    requires Fits(ts1.sec + ts2.sec, ts1.nsec + ts2.nsec)
    modifies out
    ensures out.Value() == Canon(old(ts1.Value().Ns()) + old(ts2.Value().Ns()))
  {
    out.sec := ts1.sec + ts2.sec;
    out.nsec := ts1.nsec + ts2.nsec;
    out.Norm();
  }

  method TsDiv(ts: Timespec, div: int, out: Timespec)
    requires div != 0 && InLong(div) && InLong(ts.sec * NSEC) && InLong(ts.Value().Ns())
    requires ts.Value().Ns() != -LONG_MAX - 1 || div != -1
    modifies out
    ensures out.Value() == Canon(Quot(old(ts.Value().Ns()), div))
  {
    var tmp := ts.sec * NSEC + ts.nsec;
    tmp := Quot(tmp, div);
    out.sec := Quot(tmp, NSEC);
    out.nsec := Rem(tmp, NSEC);
  }

  /** Subtracting and adding back recovers the normalised first operand. */
  lemma AddAfterSub(a: Ts, b: Ts)
    ensures Canon(Canon(a.Ns() - b.Ns()).Ns() + b.Ns()) == Canon(a.Ns())
  {
    CanonIsNormal(a.Ns() - b.Ns());
  }
}
