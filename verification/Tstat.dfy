/** Duration statistics: extrema, exact total and average of a sequence of measurements. */
module Tstat {
  import opened Timespec
  import DivMod

  /** The fields of a statistic as values. */
  datatype Stat = Stat(min: Ts, max: Ts, total: Ts, cnt: nat)

  const FRESH := Stat(Ts(LONG_MAX, LONG_MAX), Ts(0, 0), Ts(0, 0), 0)

  function Updated(s: Stat, ns: int): Stat {
    var dur := Canon(ns);
    Stat(if Cmp(dur, s.min) == -1 then dur else s.min,
         if Cmp(dur, s.max) == 1 then dur else s.max,
         Canon(s.total.Ns() + ns),
         s.cnt + 1)
  }

  /** The statistic after the given durations in nanoseconds. */
  function StatOf(durs: seq<int>): Stat {
    if durs == [] then FRESH else Updated(StatOf(durs[..|durs| - 1]), durs[|durs| - 1])
  }

  lemma StatStep(durs: seq<int>, ns: int)
    ensures StatOf(durs + [ns]) == Updated(StatOf(durs), ns)
  {
    assert (durs + [ns])[..|durs|] == durs;
  }

  function Sum(durs: seq<int>): int {
    if durs == [] then 0 else Sum(durs[..|durs| - 1]) + durs[|durs| - 1]
  }

  ghost predicate Measurable(durs: seq<int>) {
    forall i :: 0 <= i < |durs| ==> 0 <= durs[i] && Canon(durs[i]).sec <= LONG_MAX
  }

  /** Minimum and maximum are the true extrema, count and total are exact, and all are in normal form. */
  lemma {:induction false} Summarises(durs: seq<int>)
    requires Measurable(durs)
    ensures var s := StatOf(durs);
            && s.cnt == |durs| && s.total.Normal() && s.total.Ns() == Sum(durs)
            && s.max.Normal() && s.max.Ns() >= 0
            && (durs == [] ==> s == FRESH)
            && (durs != [] ==> s.min.Normal() && s.min.Ns() in durs && s.max.Ns() in durs)
            && forall i :: 0 <= i < |durs| ==> s.min.Ns() <= durs[i] <= s.max.Ns()
  {
    hide Canon, Cmp, Quot, Rem;
    if durs != [] {
      var rest, d := durs[..|durs| - 1], durs[|durs| - 1];
      var was := StatOf(rest);
      Summarises(rest);
      CanonIsNormal(d);
      CanonIsNormal(was.total.Ns() + d);
      CmpIsOrder(Canon(d), was.max);
      if rest != [] {
        CmpIsOrder(Canon(d), was.min);
      }
      Extrema(rest, d, was, StatOf(durs));
      assert durs == rest + [d];
    }
  }

  /** Any measurable duration is below the initial minimum. */
  lemma LessThanFresh(d: int)
    requires Canon(d).sec <= LONG_MAX && Canon(d).Normal()
    ensures Cmp(Canon(d), FRESH.min) == -1
  {
  }

  lemma Extrema(rest: seq<int>, d: int, was: Stat, now: Stat)
    requires d >= 0 && Canon(d).sec <= LONG_MAX && Canon(d).Ns() == d && Canon(d).Normal()
    requires was.max.Normal() && was.max.Ns() >= 0 && now == Updated(was, d)
    requires rest == [] ==> was == FRESH
    requires rest != [] ==> was.min.Normal() && was.min.Ns() in rest && was.max.Ns() in rest
    requires forall i :: 0 <= i < |rest| ==> was.min.Ns() <= rest[i] <= was.max.Ns()
    ensures now.min.Normal() && now.min.Ns() in rest + [d]
    ensures now.max.Normal() && now.max.Ns() in rest + [d] && now.max.Ns() >= 0
    ensures forall i :: 0 <= i < |rest| + 1 ==> now.min.Ns() <= (rest + [d])[i] <= now.max.Ns()
  {
    hide Canon, Cmp, Quot, Rem;
    CmpIsOrder(Canon(d), was.max);
    if rest == [] {
      LessThanFresh(d);
      assert now.min == Canon(d) && now.max.Ns() == d;
    } else {
      CmpIsOrder(Canon(d), was.min);
      assert now.min.Ns() == (if d < was.min.Ns() then d else was.min.Ns());
      assert now.max.Ns() == (if d > was.max.Ns() then d else was.max.Ns());
      assert (rest + [d])[|rest|] == d;
    }
  }

  lemma {:induction false} SumBounds(durs: seq<int>, lo: int, hi: int)
    requires forall i :: 0 <= i < |durs| ==> lo <= durs[i] <= hi
    ensures lo * |durs| <= Sum(durs) <= hi * |durs|
  {
    if durs != [] {
      SumBounds(durs[..|durs| - 1], lo, hi);
      assert lo * |durs| == lo * (|durs| - 1) + lo && hi * |durs| == hi * (|durs| - 1) + hi;
    }
  }

  /** The reported average lies between the reported extrema, in the order of the timespec comparison. */
  lemma AverageBetweenExtrema(durs: seq<int>)
    requires Measurable(durs) && durs != []
    ensures var s := StatOf(durs);
            var avg := Canon(Quot(s.total.Ns(), s.cnt));
            && s.min.Ns() * s.cnt <= s.total.Ns() <= s.max.Ns() * s.cnt
            && Cmp(s.min, avg) <= 0 && Cmp(avg, s.max) <= 0
  {
    hide Canon, Cmp, Quot, StatOf, Sum;
    var s := StatOf(durs);
    Summarises(durs);
    SumBounds(durs, s.min.Ns(), s.max.Ns());
    var q := Quot(s.total.Ns(), s.cnt);
    assert 0 <= s.min.Ns() && 0 <= s.min.Ns() * s.cnt;
    Between(s.total.Ns(), s.cnt, s.min.Ns(), s.max.Ns());
    CanonIsNormal(q);
    CmpIsOrder(s.min, Canon(q));
    CmpIsOrder(Canon(q), s.max);
  }

  lemma Between(total: int, cnt: nat, lo: int, hi: int)
    requires cnt > 0 && 0 <= total && lo * cnt <= total <= hi * cnt
    ensures lo <= Quot(total, cnt) <= hi
  {
    var q := total / cnt;
    assert Quot(total, cnt) == q && total == q * cnt + total % cnt;
    assert (q + 1) * cnt == q * cnt + cnt && (hi + 1) * cnt == hi * cnt + cnt;
    if q < lo {
      DivMod.Grow(q + 1, lo, cnt);
    }
    if q > hi {
      DivMod.Grow(hi + 1, q, cnt);
    }
  }

  /** A statistic in memory. `durs` are the durations it was updated with. */
  class TstatBuf {
    const min: Timespec
    const max: Timespec
    const total: Timespec
    var cnt: nat
    ghost var durs: seq<int>

    ghost function Value(): Stat
      reads this, min, max, total
    {
      Stat(min.Value(), max.Value(), total.Value(), cnt)
    }

    ghost predicate Valid()
      reads this, min, max, total
    {
      min != max && min != total && max != total && Measurable(durs) && Value() == StatOf(durs)
    }

    constructor ()
      ensures Valid() && durs == [] && fresh(min) && fresh(max) && fresh(total)
    {
      min := new Timespec(LONG_MAX, LONG_MAX);
      max := new Timespec(0, 0);
      total := new Timespec(0, 0);
      cnt := 0;
      durs := [];
    }

    /** One more measurement is accounted for, including in the total that is added to in place. */
    method Update(start: Timespec, end: Timespec)
      requires Valid()
      requires {start, end} !! {min, max, total}
      requires Fits(end.sec - start.sec, end.nsec - start.nsec)
      requires var ns := end.Value().Ns() - start.Value().Ns();
               && 0 <= ns && Canon(ns).sec <= LONG_MAX
               && Fits(total.sec + Canon(ns).sec, total.nsec + Canon(ns).nsec)
      modifies this, min, max, total
      ensures Valid()
      ensures durs == old(durs) + [end.Value().Ns() - start.Value().Ns()]
    {
      hide Canon, Cmp, Fits, StatOf, Ts.Ns;
      ghost var ns := end.Value().Ns() - start.Value().Ns();
      StatStep(durs, ns);
      var dur := new Timespec(0, 0);
      TsSub(end, start, dur);
      CanonIsNormal(ns);
      if Cmp(dur.Value(), min.Value()) == -1 {
        min.sec, min.nsec := dur.sec, dur.nsec;
      }
      if Cmp(dur.Value(), max.Value()) == 1 {
        max.sec, max.nsec := dur.sec, dur.nsec;
      }
      TsAdd(total, dur, total);
      cnt := cnt + 1;
      durs := durs + [ns];
    }

    /** The average that is logged, and whether there is one. */
    method Average(avg: Timespec) returns (some: bool)
      requires Valid() && InLong(cnt) && InLong(total.sec * NSEC) && InLong(total.Value().Ns())
      requires avg !in {min, max, total}
      modifies avg
      ensures some <==> durs != []
      ensures some ==> Cmp(min.Value(), avg.Value()) <= 0 && Cmp(avg.Value(), max.Value()) <= 0
    {
      Summarises(durs);
      some := cnt > 0;
      if some {
        TsDiv(total, cnt, avg);
        AverageBetweenExtrema(durs);
      }
    }
  }
}
