/** The history of a plug meter: readings are put into periods counted back from now, and
    periods without a reading take the value of the one before them. */
module PlugHistory {
  datatype Reading = Reading(time: int, sum: int)

  /** Division as in C, towards zero. */
  function Divide(a: int, b: int): int
    requires b > 0
  {
    if a < 0 then -(-a / b) else a / b
  }

  /** How the periods lie: the minute they are counted from, their length and their number. */
  datatype Periods = Periods(start: int, period: int, num: nat)
  {
    predicate Valid() {
      period >= 1 && num >= 1
    }

    /** The period of a reading. What lies less than a period ahead falls in the first. */
    function Sample(r: Reading): int
      requires Valid()
    {
      Divide(start - Divide(r.time, 60), period)
    }

    predicate InRange(r: Reading)
      requires Valid()
    {
      0 <= Sample(r) < num
    }

    predicate Older(r: Reading)
      requires Valid()
    {
      Sample(r) >= num
    }
  }

  /** How old a reading is, in whole minutes: the minute of a time is the one it lies in. */
  function Age(p: Periods, minute: int): int {
    p.start - minute
  }

  predicate InMinute(time: int, minute: int) {
    60 * minute <= time < 60 * minute + 60
  }

  /** A reading falls in the period that its age lies in, from one multiple of the length up to the
      next; what lies less than a period ahead falls in the first, and what lies further ahead
      in none. */
  lemma SampleByAge(p: Periods, r: Reading, minute: int, k: nat)
    requires p.Valid() && r.time >= 0 && InMinute(r.time, minute)
    ensures Age(p, minute) >= 0 ==> (p.Sample(r) == k <==> k * p.period <= Age(p, minute) < (k + 1) * p.period)
    ensures Age(p, minute) < 0 ==> (p.Sample(r) == 0 <==> -p.period < Age(p, minute)) && p.Sample(r) <= 0
  {
    MinuteOf(r.time, minute);
    var age := Age(p, minute);
    if age >= 0 {
      QuotientIs(age, p.period, k);
    } else {
      QuotientIs(-age, p.period, 0);
    }
  }

  lemma MinuteOf(time: int, minute: int)
    requires time >= 0 && InMinute(time, minute)
    ensures Divide(time, 60) == minute
  {
  }

  lemma QuotientIs(a: nat, b: int, k: nat)
    requires b > 0
    ensures a / b == k <==> k * b <= a < (k + 1) * b
  {
    var (q, r) := (a / b, a % b);
    assert a == q * b + r && (q + 1) * b == q * b + b;
    if q < k {
      ProductMonotone(b, k, q + 1);
    } else if q > k {
      ProductMonotone(b, q, k + 1);
    }
  }

  // ----- what the call-back makes of the readings -----

  function Highest(rs: seq<Reading>, p: Periods, sample: int): int
    requires p.Valid()
  {
    if rs == [] then 0
    else
      var (before, r) := (Highest(rs[..|rs| - 1], p, sample), rs[|rs| - 1]);
      if p.Sample(r) == sample && r.sum > before then r.sum else before
  }

  function Lowest(rs: seq<Reading>, p: Periods): int
    requires p.Valid()
  {
    if rs == [] then 0
    else
      var (before, r) := (Lowest(rs[..|rs| - 1], p), rs[|rs| - 1]);
      if p.InRange(r) && (before == 0 || r.sum < before) then r.sum else before
  }

  function HighestOld(rs: seq<Reading>, p: Periods): int
    requires p.Valid()
  {
    if rs == [] then 0
    else
      var (before, r) := (HighestOld(rs[..|rs| - 1], p), rs[|rs| - 1]);
      if p.Older(r) && (before == 0 || r.sum > before) then r.sum else before
  }

  /** The value the last period starts from when it has no reading. */
  function StartValue(rs: seq<Reading>, p: Periods): int
    requires p.Valid()
  {
    if HighestOld(rs, p) != 0 then HighestOld(rs, p) else Lowest(rs, p)
  }

  /** The filled history, period by period. */
  function Filled(rs: seq<Reading>, p: Periods, i: nat): int
    requires p.Valid() && i < p.num
    decreases p.num - i
  {
    if Highest(rs, p, i) != 0 then Highest(rs, p, i)
    else if i == p.num - 1 then StartValue(rs, p)
    else Filled(rs, p, i + 1)
  }

  class Meter {
    var histmin: int
    var histmax: int
    const buffer: array<int>

    constructor (buffer: array<int>)
      ensures this.buffer == buffer
    {
      this.buffer, histmin, histmax := buffer, 0, 0;
    }

    ghost predicate Collected(rs: seq<Reading>, p: Periods)
      requires p.Valid()
      reads this, buffer
    {
      && buffer.Length == p.num && histmin == Lowest(rs, p) && histmax == HighestOld(rs, p)
      && forall k | 0 <= k < p.num :: buffer[k] == Highest(rs, p, k)
    }

    method HistCb(r: Reading, p: Periods, ghost rs: seq<Reading>)
      requires p.Valid() && Collected(rs, p)
      modifies this, buffer
      ensures Collected(rs + [r], p)
    {
      forall k | 0 <= k < p.num
        ensures Highest(rs + [r], p, k) == if p.Sample(r) == k && r.sum > Highest(rs, p, k) then r.sum
          else Highest(rs, p, k)
      {
        Steps(rs, r, p, k);
      }
      Steps(rs, r, p, 0);
      var min := Divide(r.time, 60);
      var sample := Divide(p.start - min, p.period);
      if sample < 0 {
      } else if sample < p.num {
        if r.sum > buffer[sample] {
          buffer[sample] := r.sum;
        }
        if histmin == 0 || r.sum < histmin {
          histmin := r.sum;
        }
      } else {
        if histmax == 0 || r.sum > histmax {
          histmax := r.sum;
        }
      }
    }

    /** Fills the buffer from the readings the database passes, in the order it passes them. */
    method GetHistory(readings: seq<Reading>, now: int, period: int)
      requires period >= 1 && buffer.Length >= 1
      modifies this, buffer
      ensures var p := Periods(Divide(now, 60), period, buffer.Length);
              forall i | 0 <= i < buffer.Length :: buffer[i] == Filled(readings, p, i)
    {
      var p := Periods(Divide(now, 60), period, buffer.Length);
      histmin, histmax := 0, 0;
      forall i | 0 <= i < buffer.Length {
        buffer[i] := 0;
      }
      for k := 0 to |readings|
        invariant Collected(readings[..k], p)
      {
        HistCb(readings[k], p, readings[..k]);
        assert readings[..k] + [readings[k]] == readings[..k + 1];
      }
      assert readings[..|readings|] == readings;
      if buffer[p.num - 1] == 0 {
        buffer[p.num - 1] := if histmax != 0 then histmax else histmin;
      }
      var i := p.num - 2;
      while i >= 0
        invariant -1 <= i <= p.num - 2
        invariant forall k | i < k < p.num :: buffer[k] == Filled(readings, p, k)
        invariant forall k | 0 <= k <= i :: buffer[k] == Highest(readings, p, k)
      {
        if buffer[i] == 0 {
          buffer[i] := buffer[i + 1];
        }
        i := i - 1;
      }
    }
  }

  // ----- when the order of readings matters -----

  predicate NonNegative(rs: seq<Reading>) {
    forall i :: 0 <= i < |rs| ==> rs[i].sum >= 0
  }

  ghost predicate Permuted(rs: seq<Reading>, qs: seq<Reading>) {
    multiset(rs) == multiset(qs)
  }

  ghost predicate ZeroInRange(rs: seq<Reading>, p: Periods)
    requires p.Valid()
  {
    exists r :: r in rs && p.InRange(r) && r.sum == 0
  }

  ghost predicate PositiveInRange(rs: seq<Reading>, p: Periods)
    requires p.Valid()
  {
    exists r :: r in rs && p.InRange(r) && r.sum > 0
  }

  /** A positive reading of a period or one further back. */
  ghost predicate PositiveFrom(rs: seq<Reading>, p: Periods, i: int)
    requires p.Valid()
  {
    exists r :: r in rs && p.Sample(r) >= i && r.sum > 0
  }

  /** Zero stands both for no reading and for a reading of zero. The two are confused where there
      is a reading of zero to be the lowest and another that is not zero, and the lowest is what
      the history starts from. */
  ghost predicate ZeroDecides(rs: seq<Reading>, p: Periods)
    requires p.Valid()
  {
    ZeroInRange(rs, p) && PositiveInRange(rs, p) && !PositiveFrom(rs, p, p.num - 1)
  }

  /** The highest reading of a period is one of its readings, or zero, and none is above it. */
  lemma {:induction false} HighestIs(rs: seq<Reading>, p: Periods, sample: int)
    requires p.Valid() && NonNegative(rs)
    ensures Highest(rs, p, sample) >= 0
    ensures forall r :: r in rs && p.Sample(r) == sample ==> 0 <= r.sum <= Highest(rs, p, sample)
    ensures Highest(rs, p, sample) != 0 ==>
      exists r :: r in rs && p.Sample(r) == sample && r.sum == Highest(rs, p, sample)
  {
    if rs != [] {
      var (before, last) := (rs[..|rs| - 1], rs[|rs| - 1]);
      HighestIs(before, p, sample);
      assert last in rs && forall r :: r in rs <==> r in before || r == last;
    }
  }

  /** Whatever the order, the lowest reading is one that is in range, or zero. */
  lemma {:induction false} LowestIsOne(rs: seq<Reading>, p: Periods)
    requires p.Valid() && NonNegative(rs)
    ensures Lowest(rs, p) >= 0
    ensures Lowest(rs, p) != 0 ==> exists r :: r in rs && p.InRange(r) && r.sum == Lowest(rs, p)
  {
    if rs != [] {
      var (before, last) := (rs[..|rs| - 1], rs[|rs| - 1]);
      LowestIsOne(before, p);
      assert last in rs && forall r :: r in rs <==> r in before || r == last;
    }
  }

  /** Without a zero, none that is in range is below it. */
  lemma {:induction false} LowestIs(rs: seq<Reading>, p: Periods)
    requires p.Valid() && NonNegative(rs) && !ZeroInRange(rs, p)
    ensures forall r :: r in rs && p.InRange(r) ==> 0 < Lowest(rs, p) <= r.sum
  {
    if rs != [] {
      var (before, last) := (rs[..|rs| - 1], rs[|rs| - 1]);
      assert last in rs && forall r :: r in rs <==> r in before || r == last;
      LowestIs(before, p);
      LowestIsOne(before, p);
    }
  }

  lemma {:induction false} HighestOldIs(rs: seq<Reading>, p: Periods)
    requires p.Valid() && NonNegative(rs)
    ensures HighestOld(rs, p) >= 0
    ensures forall r :: r in rs && p.Older(r) ==> 0 <= r.sum <= HighestOld(rs, p)
    ensures HighestOld(rs, p) != 0 ==> exists r :: r in rs && p.Older(r) && r.sum == HighestOld(rs, p)
  {
    if rs != [] {
      var (before, last) := (rs[..|rs| - 1], rs[|rs| - 1]);
      HighestOldIs(before, p);
      assert last in rs && forall r :: r in rs <==> r in before || r == last;
    }
  }

  lemma SameReadings(rs: seq<Reading>, qs: seq<Reading>, p: Periods)
    requires p.Valid() && Permuted(rs, qs) && NonNegative(rs)
    ensures forall r :: r in rs <==> r in qs
    ensures NonNegative(qs) && (ZeroDecides(rs, p) <==> ZeroDecides(qs, p))
  {
    assert forall r :: r in rs <==> r in multiset(rs);
    assert forall r :: r in qs <==> r in multiset(qs);
    forall i | 0 <= i < |qs| ensures qs[i].sum >= 0 {
      assert qs[i] in qs;
    }
  }

  /** The highest readings never depend on the order. */
  lemma HighestSame(rs: seq<Reading>, qs: seq<Reading>, p: Periods, i: int)
    requires p.Valid() && NonNegative(rs) && Permuted(rs, qs)
    ensures Highest(rs, p, i) == Highest(qs, p, i)
  {
    SameReadings(rs, qs, p);
    HighestIs(rs, p, i);
    HighestIs(qs, p, i);
  }

  lemma HighestOldSame(rs: seq<Reading>, qs: seq<Reading>, p: Periods)
    requires p.Valid() && NonNegative(rs) && Permuted(rs, qs)
    ensures HighestOld(rs, p) == HighestOld(qs, p)
  {
    SameReadings(rs, qs, p);
    HighestOldIs(rs, p);
    HighestOldIs(qs, p);
  }

  /** Where the lowest reading is what the history starts from. */
  lemma StartsFromLowest(rs: seq<Reading>, p: Periods)
    requires p.Valid() && NonNegative(rs)
    ensures PositiveFrom(rs, p, p.num - 1) <==> Highest(rs, p, p.num - 1) != 0 || HighestOld(rs, p) != 0
    ensures !PositiveFrom(rs, p, p.num - 1) ==> Filled(rs, p, p.num - 1) == Lowest(rs, p)
  {
    HighestIs(rs, p, p.num - 1);
    HighestOldIs(rs, p);
  }

  lemma LowestSame(rs: seq<Reading>, qs: seq<Reading>, p: Periods)
    requires p.Valid() && NonNegative(rs) && Permuted(rs, qs) && !(ZeroInRange(rs, p) && PositiveInRange(rs, p))
    ensures Lowest(rs, p) == Lowest(qs, p)
  {
    SameReadings(rs, qs, p);
    LowestIsOne(rs, p);
    LowestIsOne(qs, p);
    if !ZeroInRange(rs, p) {
      LowestIs(rs, p);
      LowestIs(qs, p);
    }
  }

  /** Unless a zero decides, the history depends on what the readings are, not on their order. */
  lemma {:induction false} OrderFree(rs: seq<Reading>, qs: seq<Reading>, p: Periods, i: nat)
    requires p.Valid() && i < p.num && NonNegative(rs) && !ZeroDecides(rs, p) && Permuted(rs, qs)
    ensures Filled(rs, p, i) == Filled(qs, p, i)
    decreases p.num - i
  {
    HighestSame(rs, qs, p, i);
    if i == p.num - 1 {
      HighestOldSame(rs, qs, p);
      StartsFromLowest(rs, p);
      if !PositiveFrom(rs, p, i) {
        LowestSame(rs, qs, p);
      }
    } else {
      OrderFree(rs, qs, p, i + 1);
    }
  }

  /** Nor does a period depend on it that has a positive reading at it or further back in range. */
  lemma {:induction false} OrderFreeFrom(rs: seq<Reading>, qs: seq<Reading>, p: Periods, i: nat, r: Reading)
    requires p.Valid() && NonNegative(rs) && Permuted(rs, qs)
    requires r in rs && i <= p.Sample(r) < p.num && r.sum > 0
    ensures Filled(rs, p, i) == Filled(qs, p, i) > 0
    decreases p.num - i
  {
    HighestSame(rs, qs, p, i);
    HighestIs(rs, p, i);
    if Highest(rs, p, i) == 0 {
      OrderFreeFrom(rs, qs, p, i + 1, r);
    }
  }

  /** The same readings with one of them moved to the end. */
  lemma MovedLast(rs: seq<Reading>, r: Reading) returns (front: seq<Reading>)
    requires r in rs
    ensures Permuted(rs, front + [r]) && forall q :: q in front ==> q in rs
  {
    var k :| 0 <= k < |rs| && rs[k] == r;
    front := rs[..k] + rs[k + 1..];
    assert rs == rs[..k] + [r] + rs[k + 1..];
  }

  /** The reading that comes last: a zero makes the lowest zero, another one does not leave it so. */
  lemma LowestLast(front: seq<Reading>, r: Reading, p: Periods)
    requires p.Valid() && NonNegative(front + [r]) && p.InRange(r)
    ensures Lowest(front + [r], p) == 0 <==> r.sum == 0
  {
    Steps(front, r, p, 0);
    forall i | 0 <= i < |front| ensures front[i].sum >= 0 {
      assert (front + [r])[i] == front[i];
    }
    assert (front + [r])[|front|] == r;
    LowestIsOne(front, p);
  }

  /** Where a zero decides, two orders of the same readings make two histories. */
  lemma OrderMatters(rs: seq<Reading>, p: Periods) returns (low: seq<Reading>, high: seq<Reading>)
    requires p.Valid() && NonNegative(rs) && ZeroDecides(rs, p)
    ensures Permuted(rs, low) && Permuted(rs, high) && p.num > 1
    ensures Filled(low, p, p.num - 1) == 0 < Filled(high, p, p.num - 1)
    ensures Filled(low, p, 0) == Filled(high, p, 0)
  {
    var zero :| zero in rs && p.InRange(zero) && zero.sum == 0;
    var r :| r in rs && p.InRange(r) && r.sum > 0;
    var front := MovedLast(rs, zero);
    low := front + [zero];
    SameReadings(rs, low, p);
    LowestLast(front, zero, p);
    StartsFromLowest(low, p);
    front := MovedLast(rs, r);
    high := front + [r];
    SameReadings(rs, high, p);
    LowestLast(front, r, p);
    StartsFromLowest(high, p);
    LowestIsOne(high, p);
    OrderFreeFrom(rs, low, p, 0, r);
    OrderFreeFrom(rs, high, p, 0, r);
  }

  ghost predicate SameInAnyOrder(rs: seq<Reading>, p: Periods)
    requires p.Valid()
  {
    forall qs: seq<Reading>, i: nat :: Permuted(rs, qs) && i < p.num ==> Filled(qs, p, i) == Filled(rs, p, i)
  }

  /** From the first entry back to the last: what the plug used in all the periods. */
  function Difference(rs: seq<Reading>, p: Periods): int
    requires p.Valid()
  {
    Filled(rs, p, 0) - Filled(rs, p, p.num - 1)
  }

  ghost predicate SameDifference(rs: seq<Reading>, p: Periods)
    requires p.Valid()
  {
    forall qs: seq<Reading> :: Permuted(rs, qs) ==> Difference(qs, p) == Difference(rs, p)
  }

  /** The order of readings matters to the history, and to the difference taken from it, exactly
      if a zero decides. */
  lemma OrderExact(rs: seq<Reading>, p: Periods)
    requires p.Valid() && NonNegative(rs)
    ensures SameInAnyOrder(rs, p) <==> !ZeroDecides(rs, p)
    ensures SameDifference(rs, p) <==> !ZeroDecides(rs, p)
  {
    if ZeroDecides(rs, p) {
      var low, high := OrderMatters(rs, p);
      assert Difference(low, p) != Difference(high, p);
    } else {
      forall qs: seq<Reading>, i: nat | Permuted(rs, qs) && i < p.num
        ensures Filled(qs, p, i) == Filled(rs, p, i)
      {
        OrderFree(rs, qs, p, i);
      }
    }
  }

  lemma Steps(rs: seq<Reading>, r: Reading, p: Periods, sample: int)
    requires p.Valid()
    ensures Highest(rs + [r], p, sample) ==
      if p.Sample(r) == sample && r.sum > Highest(rs, p, sample) then r.sum else Highest(rs, p, sample)
    ensures Lowest(rs + [r], p) ==
      if p.InRange(r) && (Lowest(rs, p) == 0 || r.sum < Lowest(rs, p)) then r.sum else Lowest(rs, p)
    ensures HighestOld(rs + [r], p) ==
      if p.Older(r) && (HighestOld(rs, p) == 0 || r.sum > HighestOld(rs, p)) then r.sum else HighestOld(rs, p)
  {
    assert (rs + [r])[..|rs|] == rs;
  }

  // ----- a meter that only counts up -----

  predicate NeverDecreasing(rs: seq<Reading>) {
    forall r, s :: r in rs && s in rs && r.time <= s.time ==> r.sum <= s.sum
  }

  lemma DivideMonotone(a: int, b: int, c: int)
    requires c > 0 && a <= b
    ensures Divide(a, c) <= Divide(b, c)
  {
    if b < 0 {
      QuotientMonotone(-b, -a, c);
    } else if a >= 0 {
      QuotientMonotone(a, b, c);
    } else {
      QuotientMonotone(0, -a, c);
      QuotientMonotone(0, b, c);
    }
  }

  lemma QuotientMonotone(a: nat, b: nat, c: int)
    requires c > 0 && a <= b
    ensures a / c <= b / c
  {
    var (q, r) := (a / c, b / c);
    assert c * q <= a;
    assert b < c * (r + 1);
    if q > r {
      ProductMonotone(c, q, r + 1);
    }
  }

  lemma ProductMonotone(c: int, x: int, y: int)
    requires c > 0 && x >= y
    ensures c * x >= c * y
  {
  }

  /** A reading of a later period is an earlier one. */
  lemma EarlierIsOlder(p: Periods, r: Reading, s: Reading)
    requires p.Valid() && p.Sample(r) < p.Sample(s)
    ensures s.time < r.time
  {
    if r.time <= s.time {
      DivideMonotone(r.time, s.time, 60);
      DivideMonotone(p.start - Divide(s.time, 60), p.start - Divide(r.time, 60), p.period);
    }
  }

  /** The highest reading of a period or one further back. */
  ghost predicate IsLatest(rs: seq<Reading>, p: Periods, i: nat, value: int)
    requires p.Valid()
  {
    && (exists r :: r in rs && p.Sample(r) >= i && r.sum == value)
    && (forall r :: r in rs && p.Sample(r) >= i ==> r.sum <= value)
  }

  /** Each entry of the filled history is the meter's state at that time: the highest reading up
      to that period; or, before the first positive one, the lowest there is. */
  lemma {:induction false} FilledIsLatest(rs: seq<Reading>, p: Periods, i: nat)
    requires p.Valid() && i < p.num && NonNegative(rs) && NeverDecreasing(rs)
    ensures if PositiveFrom(rs, p, i) then IsLatest(rs, p, i, Filled(rs, p, i)) && Filled(rs, p, i) > 0
            else Filled(rs, p, i) == Lowest(rs, p)
    decreases p.num - i
  {
    HighestIs(rs, p, i);
    if Highest(rs, p, i) != 0 {
      var top :| top in rs && p.Sample(top) == i && top.sum == Highest(rs, p, i);
      forall r | r in rs && p.Sample(r) >= i ensures r.sum <= top.sum {
        if p.Sample(r) > i {
          EarlierIsOlder(p, top, r);
        }
      }
    } else if i == p.num - 1 {
      HighestOldIs(rs, p);
    } else {
      FilledIsLatest(rs, p, i + 1);
    }
  }

  /** As old as the periods from one on: not ahead by a whole period, for the first. */
  predicate AsOldAs(p: Periods, age: int, i: nat) {
    if i == 0 then -p.period < age else i * p.period <= age
  }

  lemma FromByAge(p: Periods, r: Reading, minute: int, i: nat)
    requires p.Valid() && r.time >= 0 && InMinute(r.time, minute)
    ensures p.Sample(r) >= i <==> AsOldAs(p, Age(p, minute), i)
  {
    var age := Age(p, minute);
    if age >= 0 {
      SampleByAge(p, r, minute, p.Sample(r));
      Reaches(age, p.period, p.Sample(r), i);
    } else {
      SampleByAge(p, r, minute, 0);
      AheadOf(age, p.period, i);
    }
  }

  lemma AheadOf(age: int, period: int, i: nat)
    requires period > 0 && age < 0
    ensures age < i * period
  {
    ProductMonotone(period, i, 0);
  }

  lemma Reaches(age: nat, period: int, k: nat, i: nat)
    requires period > 0 && k * period <= age < (k + 1) * period
    ensures k >= i <==> i * period <= age
  {
    if k < i {
      ProductMonotone(period, i, k + 1);
    } else {
      ProductMonotone(period, k, i);
    }
  }

  /** The highest reading that is as old as a period. */
  ghost predicate HighestOfAge(rs: seq<Reading>, p: Periods, i: nat, value: int) {
    && (exists r, minute :: r in rs && InMinute(r.time, minute) && AsOldAs(p, Age(p, minute), i) && r.sum == value)
    && (forall r, minute :: r in rs && InMinute(r.time, minute) && AsOldAs(p, Age(p, minute), i) ==> r.sum <= value)
  }

  /** In terms of ages: for a meter that only counts up, an entry is the highest reading at least as
      many minutes old as the periods before it are long, if one of these is positive. */
  lemma FilledByAge(rs: seq<Reading>, p: Periods, i: nat)
    requires p.Valid() && i < p.num && NonNegative(rs) && NeverDecreasing(rs)
    requires forall r :: r in rs ==> r.time >= 0
    requires exists r, minute :: r in rs && InMinute(r.time, minute) && AsOldAs(p, Age(p, minute), i) && r.sum > 0
    ensures HighestOfAge(rs, p, i, Filled(rs, p, i))
  {
    var r, minute :| r in rs && InMinute(r.time, minute) && AsOldAs(p, Age(p, minute), i) && r.sum > 0;
    FromByAge(p, r, minute, i);
    FilledIsLatest(rs, p, i);
    LatestByAge(rs, p, i, Filled(rs, p, i));
  }

  lemma LatestByAge(rs: seq<Reading>, p: Periods, i: nat, value: int)
    requires p.Valid() && (forall r :: r in rs ==> r.time >= 0) && IsLatest(rs, p, i, value)
    ensures HighestOfAge(rs, p, i, value)
  {
    var top :| top in rs && p.Sample(top) >= i && top.sum == value;
    var minute := top.time / 60;
    assert InMinute(top.time, minute);
    FromByAge(p, top, minute, i);
    forall r, minute | r in rs && InMinute(r.time, minute) && AsOldAs(p, Age(p, minute), i)
      ensures r.sum <= value
    {
      FromByAge(p, r, minute, i);
    }
  }

  /** The history never rises going back in time. */
  ghost predicate NeverRises(rs: seq<Reading>, p: Periods)
    requires p.Valid()
  {
    forall i: nat, j: nat :: i <= j < p.num ==> Filled(rs, p, i) >= Filled(rs, p, j)
  }

  /** The highest reading of some period that has a positive one is below another reading. */
  ghost predicate Grows(rs: seq<Reading>, p: Periods)
    requires p.Valid()
  {
    exists r, s :: r in rs && s in rs && p.InRange(r) && p.InRange(s) && 0 < Highest(rs, p, p.Sample(r)) < s.sum
  }

  /** For a meter that only counts up it does not, unless a zero decides and the meter grows. */
  lemma FilledNeverRises(rs: seq<Reading>, p: Periods, i: nat, j: nat)
    requires p.Valid() && i <= j < p.num && NonNegative(rs) && NeverDecreasing(rs)
    requires !ZeroDecides(rs, p) || !Grows(rs, p)
    ensures Filled(rs, p, i) >= Filled(rs, p, j)
  {
    FilledIsLatest(rs, p, i);
    FilledIsLatest(rs, p, j);
    if PositiveFrom(rs, p, j) {
      var r :| r in rs && p.Sample(r) >= j && r.sum == Filled(rs, p, j);
      assert p.Sample(r) >= i;
    } else if PositiveFrom(rs, p, i) {
      var r :| r in rs && p.Sample(r) >= i && r.sum == Filled(rs, p, i);
      LowestBelow(rs, p, i, j, r);
    }
  }

  lemma LowestBelow(rs: seq<Reading>, p: Periods, i: nat, j: nat, r: Reading)
    requires p.Valid() && i <= j < p.num && NonNegative(rs) && (!ZeroDecides(rs, p) || !Grows(rs, p))
    requires r in rs && p.Sample(r) >= i && r.sum > 0 && IsLatest(rs, p, i, r.sum) && !PositiveFrom(rs, p, j)
    ensures Lowest(rs, p) <= r.sum
  {
    assert p.InRange(r);
    if ZeroInRange(rs, p) {
      assert !PositiveFrom(rs, p, p.num - 1);
      HighestIs(rs, p, p.Sample(r));
      LowestIsOne(rs, p);
      if Lowest(rs, p) > 0 {
        var s :| s in rs && p.InRange(s) && s.sum == Lowest(rs, p);
        assert Highest(rs, p, p.Sample(r)) <= r.sum;
      }
    } else {
      LowestIs(rs, p);
    }
  }

  /** Where a zero decides and the meter grows, some order of the readings makes it rise. */
  lemma FilledRises(rs: seq<Reading>, p: Periods) returns (qs: seq<Reading>, i: nat)
    requires p.Valid() && NonNegative(rs) && ZeroDecides(rs, p) && Grows(rs, p)
    ensures Permuted(rs, qs) && i < p.num && Filled(qs, p, i) < Filled(qs, p, p.num - 1)
  {
    var r, s :| r in rs && s in rs && p.InRange(r) && p.InRange(s) && 0 < Highest(rs, p, p.Sample(r)) < s.sum;
    var zero :| zero in rs && p.InRange(zero) && zero.sum == 0;
    var first;
    first, qs := ZeroThenLast(rs, zero, s);
    i := p.Sample(r);
    SameReadings(rs, qs, p);
    LowestIsLast(first, zero, s, p);
    StartsFromLowest(qs, p);
    HighestSame(rs, qs, p, i);
  }

  lemma ZeroThenLast(rs: seq<Reading>, zero: Reading, s: Reading) returns (first: seq<Reading>, qs: seq<Reading>)
    requires zero in rs && s in rs && zero != s
    ensures qs == first + [zero] + [s] && Permuted(rs, qs)
  {
    var front := MovedLast(rs, s);
    assert zero in multiset(rs) && zero in multiset(front + [s]);
    assert zero in front + [s];
    first := MovedLast(front, zero);
    qs := first + [zero] + [s];
  }

  lemma LowestIsLast(first: seq<Reading>, zero: Reading, s: Reading, p: Periods)
    requires p.Valid() && NonNegative(first + [zero] + [s]) && p.InRange(zero) && p.InRange(s) && zero.sum == 0
    ensures Lowest(first + [zero] + [s], p) == s.sum
  {
    var front := first + [zero];
    assert forall k :: 0 <= k < |front| ==> front[k] == (front + [s])[k];
    LowestLast(first, zero, p);
    Steps(front, s, p, 0);
  }

  /** The history of a meter that only counts up never rises going back in time, whatever the
      order of the readings, exactly if no zero decides or the meter does not grow. */
  lemma NeverRisesExact(rs: seq<Reading>, p: Periods)
    requires p.Valid() && NonNegative(rs) && NeverDecreasing(rs)
    ensures (forall qs: seq<Reading> :: Permuted(rs, qs) ==> NeverRises(qs, p))
       <==> !ZeroDecides(rs, p) || !Grows(rs, p)
  {
    if ZeroDecides(rs, p) && Grows(rs, p) {
      var qs, i := FilledRises(rs, p);
      assert !NeverRises(qs, p);
    } else {
      forall qs: seq<Reading> | Permuted(rs, qs) ensures NeverRises(qs, p) {
        SameGrowth(rs, qs, p);
        forall i: nat, j: nat | i <= j < p.num ensures Filled(qs, p, i) >= Filled(qs, p, j) {
          FilledNeverRises(qs, p, i, j);
        }
      }
    }
  }

  lemma SameGrowth(rs: seq<Reading>, qs: seq<Reading>, p: Periods)
    requires p.Valid() && NonNegative(rs) && NeverDecreasing(rs) && Permuted(rs, qs)
    ensures NonNegative(qs) && NeverDecreasing(qs) && (ZeroDecides(qs, p) ==> ZeroDecides(rs, p))
    ensures Grows(qs, p) ==> Grows(rs, p)
  {
    SameReadings(rs, qs, p);
    if Grows(qs, p) {
      var r, s :| r in qs && s in qs && p.InRange(r) && p.InRange(s) && 0 < Highest(qs, p, p.Sample(r)) < s.sum;
      HighestSame(rs, qs, p, p.Sample(r));
    }
  }

  /** The difference is never negative, not even where a zero decides. */
  lemma DifferenceNatural(rs: seq<Reading>, p: Periods)
    requires p.Valid() && NonNegative(rs) && NeverDecreasing(rs)
    ensures Difference(rs, p) >= 0
  {
    FilledIsLatest(rs, p, 0);
    FilledIsLatest(rs, p, p.num - 1);
    if PositiveFrom(rs, p, p.num - 1) {
      var r :| r in rs && p.Sample(r) >= p.num - 1 && r.sum == Filled(rs, p, p.num - 1);
      assert p.Sample(r) >= 0;
    } else {
      LowestIsOne(rs, p);
    }
  }

  /** A plug first read at zero: over the hour from 0 to 5 it used 5, and in the other order of
      the two readings nothing. */
  lemma ZeroReadingOrder()
    ensures var (p, zero, five) := (Periods(100, 1, 2), Reading(5940, 0), Reading(6000, 5));
            NeverDecreasing([zero, five]) && ZeroDecides([zero, five], p)
            && Difference([zero, five], p) == 0 && Difference([five, zero], p) == 5
  {
    var (p, zero, five) := (Periods(100, 1, 2), Reading(5940, 0), Reading(6000, 5));
    assert p.Sample(zero) == 1 && p.Sample(five) == 0;
    TwoReadings(zero, five, p, 0);
    TwoReadings(zero, five, p, 1);
    TwoReadings(five, zero, p, 0);
    TwoReadings(five, zero, p, 1);
    assert zero in [zero, five] && five in [zero, five];
    assert forall r :: r in [zero, five] ==> r == zero || r == five;
  }

  lemma TwoReadings(r: Reading, s: Reading, p: Periods, sample: int)
    requires p.Valid()
    ensures var first := if p.Sample(r) == sample && r.sum > 0 then r.sum else 0;
            Highest([r, s], p, sample) == if p.Sample(s) == sample && s.sum > first then s.sum else first
    ensures var first := if p.InRange(r) then r.sum else 0;
            Lowest([r, s], p) == if p.InRange(s) && (first == 0 || s.sum < first) then s.sum else first
    ensures var first := if p.Older(r) then r.sum else 0;
            HighestOld([r, s], p) == if p.Older(s) && (first == 0 || s.sum > first) then s.sum else first
  {
    Steps([], r, p, sample);
    Steps([r], s, p, sample);
    assert [] + [r] == [r] && [r] + [s] == [r, s];
  }

  /** The consumption over 24 hours is the difference of two entries, and never negative. */
  method Consumption(meter: Meter, readings: seq<Reading>, now: int) returns (h24: int)
    requires meter.buffer.Length == 24 && NonNegative(readings) && NeverDecreasing(readings)
    modifies meter, meter.buffer
    ensures h24 == Difference(readings, Periods(Divide(now, 60), 60, 24)) >= 0
  {
    meter.GetHistory(readings, now, 60);
    h24 := meter.buffer[0] - meter.buffer[23];
    DifferenceNatural(readings, Periods(Divide(now, 60), 60, 24));
  }
}
