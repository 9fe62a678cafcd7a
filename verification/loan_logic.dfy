/** The cooperative's loan rules: the offered principals and tenors, the interest
    rate lookup, working days, and the generator of a loan's collection schedule.

    A calendar date is a whole day number: day 0 is 1970-01-01, a Thursday. The
    weekday numbering is the one of JavaScript's Date.getDay: Sunday is 0 and
    Saturday is 6. */
module LoanLogic {

  /** Principals a collector can offer (in rupiah). */
  const LoanAmounts: seq<int> :=
    [300000, 400000, 500000, 600000, 700000, 800000, 900000, 1000000, 1500000, 2000000, 2500000, 3000000]

  /** Number of installments a loan can be repaid in. */
  const TenorOptions: seq<int> := [4, 12, 14, 16, 18, 20, 24]

  /** Interest rate, in percent, charged on a principal. */
  function CalculateInterestRate(amount: int): (rate: real)
    ensures 20.0 <= rate <= 33.33
    ensures rate != 20.0 ==> amount == 300000 || amount == 400000
    ensures amount == 300000 ==> rate == 33.33
    ensures amount == 400000 ==> rate == 25.0
  {
    if amount == 300000 then 33.33
    else if amount == 400000 then 25.0
    else 20.0
  }

  /** Over the offered principals, a larger loan never carries a higher rate. */
  lemma InterestRateNonIncreasing(a: int, b: int)
    requires a in LoanAmounts && b in LoanAmounts && a <= b
    ensures CalculateInterestRate(a) >= CalculateInterestRate(b)
    ensures CalculateInterestRate(300000) == 33.33 && CalculateInterestRate(400000) == 25.0
  {
  }

  // ---------------------------------------------------------------------------
  // Weekdays and working days
  // ---------------------------------------------------------------------------

  /** Weekday of a day number: 0 is Sunday, 6 is Saturday. */
  function DayOfWeek(day: int): (w: int)
    ensures 0 <= w < 7
  {
    (day + 4) % 7
  }

  /** Monday to Friday; there is no holiday calendar. */
  predicate IsWorkingDay(day: int) {
    var w := DayOfWeek(day);
    w != 0 && w != 6
  }

  /** The epoch is a Thursday, weekdays advance by one each day, and a day is a
      working day exactly when it is neither a Saturday nor a Sunday. */
  lemma WeekdayFacts(day: int)
    ensures DayOfWeek(0) == 4
    ensures DayOfWeek(day + 1) == (DayOfWeek(day) + 1) % 7
    ensures !IsWorkingDay(day) <==> DayOfWeek(day) == 0 || DayOfWeek(day) == 6
    ensures IsWorkingDay(day + 7) == IsWorkingDay(day)
  {
  }

  /** Number of working days k with lo < k <= hi. */
  function WorkingDaysIn(lo: int, hi: int): (n: nat)
    ensures n <= if hi <= lo then 0 else hi - lo
    decreases hi - lo
  {
    if hi <= lo then 0
    else WorkingDaysIn(lo, hi - 1) + (if IsWorkingDay(hi) then 1 else 0)
  }

  /** Any seven consecutive days hold exactly five working days. */
  lemma {:induction false} WorkingDaysPerWeek(day: int)
    ensures WorkingDaysIn(day, day + 7) == 5
  {
    var k := 0;
    var count := 0;
    while k < 7
      invariant 0 <= k <= 7
      invariant WorkingDaysIn(day, day + k) == count
      invariant count == WeekdaysAmong(DayOfWeek(day), k)
    {
      DayOfWeekShift(day, k + 1);
      if IsWorkingDay(day + k + 1) {
        count := count + 1;
      }
      k := k + 1;
    }
    WeekdaysAmongWeek(DayOfWeek(day));
  }

  /** Moving k days on moves the weekday k places on, modulo seven. */
  lemma DayOfWeekShift(day: int, k: nat)
    ensures DayOfWeek(day + k) == (DayOfWeek(day) + k) % 7
  {
    var q := (day + 4) / 7;
    var w := DayOfWeek(day);
    assert day + 4 == 7 * q + w;
    var q2 := (w + k) / 7;
    var w2 := (w + k) % 7;
    assert w + k == 7 * q2 + w2;
    assert day + k + 4 == 7 * (q + q2) + w2;
  }

  lemma WeekdaysAmongWeek(w: int)
    requires 0 <= w < 7
    ensures WeekdaysAmong(w, 7) == 5
  {
    if w == 0 { assert WeekdaysAmong(0, 7) == 5; }
    else if w == 1 { assert WeekdaysAmong(1, 7) == 5; }
    else if w == 2 { assert WeekdaysAmong(2, 7) == 5; }
    else if w == 3 { assert WeekdaysAmong(3, 7) == 5; }
    else if w == 4 { assert WeekdaysAmong(4, 7) == 5; }
    else if w == 5 { assert WeekdaysAmong(5, 7) == 5; }
    else { assert WeekdaysAmong(6, 7) == 5; }
  }

  /** How many of the k weekdays following weekday w are Monday to Friday. */
  function WeekdaysAmong(w: int, k: nat): nat {
    if k == 0 then 0
    else WeekdaysAmong(w, k - 1) + (if (w + k) % 7 != 0 && (w + k) % 7 != 6 then 1 else 0)
  }

  /** The first working day strictly after `day`. */
  function NextWorkingDay(day: int): (next: int)
    ensures day < next <= day + 3
    ensures IsWorkingDay(next)
    ensures forall k :: day < k < next ==> !IsWorkingDay(k)
  {
    if IsWorkingDay(day + 1) then day + 1
    else if IsWorkingDay(day + 2) then day + 2
    else day + 3
  }

  /** Steps one day at a time from the day after `day` until it reaches a working day. */
  method GetNextWorkingDay(day: int) returns (next: int)
    ensures next == NextWorkingDay(day)
    ensures day < next && IsWorkingDay(next)
    ensures forall k :: day < k < next ==> !IsWorkingDay(k)
  {
    next := day + 1;
    while !IsWorkingDay(next)
      invariant day < next <= NextWorkingDay(day)
      decreases NextWorkingDay(day) - next
    {
      next := next + 1;
    }
  }

  /** Exactly one working day lies after `day` up to its next working day. */
  lemma NextWorkingDayCountsOne(day: int)
    ensures WorkingDaysIn(day, NextWorkingDay(day)) == 1
  {
    var next := NextWorkingDay(day);
    var k := day;
    while k < next - 1
      invariant day <= k <= next - 1
      invariant WorkingDaysIn(day, k) == 0
    {
      k := k + 1;
    }
  }

  /** `day` advanced by n working days: n applications of NextWorkingDay. */
  function Advance(day: int, n: nat): (r: int)
    ensures n == 0 ==> r == day
    ensures n > 0 ==> day < r && IsWorkingDay(r)
    ensures day + n <= r
  {
    if n == 0 then day else NextWorkingDay(Advance(day, n - 1))
  }

  /** Advancing a, then b working days, is advancing a + b working days. */
  lemma {:induction false} AdvanceAdd(day: int, a: nat, b: nat)
    ensures Advance(Advance(day, a), b) == Advance(day, a + b)
  {
    if b > 0 {
      AdvanceAdd(day, a, b - 1);
    }
  }

  /** Counting from a working day boundary: working days in (lo, hi] split at mid. */
  lemma {:induction false} WorkingDaysSplit(lo: int, mid: int, hi: int)
    requires lo <= mid <= hi
    ensures WorkingDaysIn(lo, hi) == WorkingDaysIn(lo, mid) + WorkingDaysIn(mid, hi)
    decreases hi - mid
  {
    if mid < hi {
      WorkingDaysSplit(lo, mid, hi - 1);
    }
  }

  /** Advancing by n working days passes exactly n working days: none is skipped. */
  lemma {:induction false} AdvanceCountsWorkingDays(day: int, n: nat)
    ensures WorkingDaysIn(day, Advance(day, n)) == n
  {
    if n > 0 {
      var prev := Advance(day, n - 1);
      AdvanceCountsWorkingDays(day, n - 1);
      WorkingDaysSplit(day, prev, NextWorkingDay(prev));
      NextWorkingDayCountsOne(prev);
    }
  }

  // ---------------------------------------------------------------------------
  // The collection schedule
  // ---------------------------------------------------------------------------

  /** Working days between two consecutive due dates for a tenor. A tenor of 4 is
      billed weekly, a tenor of 20 or more every working day, and any other tenor
      spreads its installments over a 20-working-day cycle. For a tenor of 0
      generateLoanSchedule divides by zero; no date is produced then, so the value
      is unused. */
  function IntervalFor(tenor: int): (interval: int)
    ensures interval >= 1
    ensures 0 < tenor < 20 ==> interval * tenor <= 20 < (interval + 1) * tenor
    ensures tenor >= 20 ==> interval == 1
  {
    if tenor == 4 then 5
    else if tenor >= 20 then 1
    else if tenor <= 0 then 1
    else Max(1, 20 / tenor)
  }

  function Max(a: int, b: int): int {
    if a < b then b else a
  }

  /** Only the tenors 1 to 10 are stepped more than one working day apart. */
  lemma IntervalAboveOne(tenor: int)
    ensures IntervalFor(tenor) > 1 <==> 1 <= tenor <= 10
  {
  }

  /** Among the offered tenors only 4 is billed more rarely than every working day. */
  lemma OfferedTenorIntervals(tenor: int)
    requires tenor in TenorOptions
    ensures IntervalFor(tenor) == if tenor == 4 then 5 else 1
  {
  }

  /** `count` due dates starting at `first`, each `interval` working days after the previous. */
  function Dates(first: int, interval: nat, count: nat): (s: seq<int>)
    ensures |s| == count
    ensures count > 0 ==> s[0] == first
    decreases count
  {
    if count == 0 then [] else [first] + Dates(Advance(first, interval), interval, count - 1)
  }

  /** Consecutive dates are `interval` working days apart. */
  lemma {:induction false} DatesStep(first: int, interval: nat, count: nat, i: nat)
    requires i + 1 < count
    decreases count
    ensures Dates(first, interval, count)[i + 1] == Advance(Dates(first, interval, count)[i], interval)
  {
    if i > 0 {
      DatesStep(Advance(first, interval), interval, count - 1, i - 1);
    }
  }

  /** The i-th date is i * interval working days after the first. */
  lemma {:induction false} DatesAt(first: int, interval: nat, count: nat, i: nat)
    requires i < count
    ensures Dates(first, interval, count)[i] == Advance(first, i * interval)
    decreases count
  {
    if i > 0 {
      DatesAt(Advance(first, interval), interval, count - 1, i - 1);
      AdvanceAdd(first, interval, (i - 1) * interval);
      assert interval + (i - 1) * interval == i * interval;
    }
  }

  /** Starting on a working day with a positive interval, every date is a working
      day and the dates strictly increase. */
  lemma {:induction false} DatesWorkingIncreasing(first: int, interval: nat, count: nat)
    requires IsWorkingDay(first) && interval >= 1
    ensures forall i :: 0 <= i < count ==> IsWorkingDay(Dates(first, interval, count)[i])
    ensures forall i, j :: 0 <= i < j < count ==> Dates(first, interval, count)[i] < Dates(first, interval, count)[j]
    decreases count
  {
    if count > 0 {
      var s := Dates(first, interval, count);
      var rest := Dates(Advance(first, interval), interval, count - 1);
      DatesWorkingIncreasing(Advance(first, interval), interval, count - 1);
      assert s == [first] + rest;
      forall i, j | 0 <= i < j < count
        ensures s[i] < s[j]
      {
        if i == 0 {
          assert s[j] == rest[j - 1];
          assert rest[0] == Advance(first, interval);
          if j > 1 {
            assert rest[0] < rest[j - 1];
          }
        } else {
          assert s[i] == rest[i - 1] && s[j] == rest[j - 1];
        }
      }
    }
  }

  /** The schedule of a loan disbursed on `disbursement` with `tenor` installments:
      billing starts on the next working day after disbursement, even when the
      disbursement day is itself a working day. A tenor of 0 or less gives no date. */
  function Schedule(disbursement: int, tenor: int): (s: seq<int>)
    ensures |s| == if tenor > 0 then tenor else 0
    ensures |s| > 0 ==> disbursement < s[0] && s[0] == NextWorkingDay(disbursement)
  {
    Dates(NextWorkingDay(disbursement), IntervalFor(tenor), if tenor > 0 then tenor else 0)
  }

  /** Every due date is a working day and the due dates strictly increase. */
  lemma ScheduleWorkingDaysIncreasing(disbursement: int, tenor: int)
    ensures forall i :: 0 <= i < |Schedule(disbursement, tenor)| ==> IsWorkingDay(Schedule(disbursement, tenor)[i])
    ensures forall i, j :: 0 <= i < j < |Schedule(disbursement, tenor)| ==>
              Schedule(disbursement, tenor)[i] < Schedule(disbursement, tenor)[j]
  {
    DatesWorkingIncreasing(NextWorkingDay(disbursement), IntervalFor(tenor), if tenor > 0 then tenor else 0);
  }

  /** Consecutive due dates are exactly IntervalFor(tenor) applications of
      NextWorkingDay apart, so exactly that many working days separate them. */
  lemma ScheduleSpacing(disbursement: int, tenor: int, i: nat)
    requires i + 1 < |Schedule(disbursement, tenor)|
    ensures Schedule(disbursement, tenor)[i + 1] == Advance(Schedule(disbursement, tenor)[i], IntervalFor(tenor))
    ensures WorkingDaysIn(Schedule(disbursement, tenor)[i], Schedule(disbursement, tenor)[i + 1]) == IntervalFor(tenor)
  {
    var s := Schedule(disbursement, tenor);
    DatesStep(NextWorkingDay(disbursement), IntervalFor(tenor), |s|, i);
    AdvanceCountsWorkingDays(s[i], IntervalFor(tenor));
  }

  /** The schedule's guarantees gathered in one place: working days, strictly
      increasing, and IntervalFor(tenor) working days between neighbours. */
  lemma ScheduleProperties(disbursement: int, tenor: int)
    ensures forall i :: 0 <= i < |Schedule(disbursement, tenor)| ==> IsWorkingDay(Schedule(disbursement, tenor)[i])
    ensures forall i, j :: 0 <= i < j < |Schedule(disbursement, tenor)| ==>
              Schedule(disbursement, tenor)[i] < Schedule(disbursement, tenor)[j]
    ensures forall i :: 0 <= i < |Schedule(disbursement, tenor)| - 1 ==>
              WorkingDaysIn(Schedule(disbursement, tenor)[i], Schedule(disbursement, tenor)[i + 1]) == IntervalFor(tenor)
  {
    ScheduleWorkingDaysIncreasing(disbursement, tenor);
    forall i | 0 <= i < |Schedule(disbursement, tenor)| - 1
      ensures WorkingDaysIn(Schedule(disbursement, tenor)[i], Schedule(disbursement, tenor)[i + 1]) == IntervalFor(tenor)
    {
      ScheduleSpacing(disbursement, tenor, i);
    }
  }

  /** The i-th due date is i * IntervalFor(tenor) working days after the first. */
  lemma ScheduleAt(disbursement: int, tenor: int, i: nat)
    requires i < |Schedule(disbursement, tenor)|
    ensures Schedule(disbursement, tenor)[i] == Advance(NextWorkingDay(disbursement), i * IntervalFor(tenor))
  {
    DatesAt(NextWorkingDay(disbursement), IntervalFor(tenor), |Schedule(disbursement, tenor)|, i);
  }

  /** Day 6 is Wednesday 1970-01-07. A weekly loan disbursed then is first billed
      on Thursday, the next working day, and then every fifth working day. */
  lemma WednesdayWeeklyExample()
    ensures DayOfWeek(6) == 3
    ensures Schedule(6, 4) == [7, 14, 21, 28]
  {
    assert NextWorkingDay(6) == 7;
    assert IntervalFor(4) == 5;
    WeeklyFromThursday(7);
  }

  /** Four weekly dates from a Thursday. */
  lemma WeeklyFromThursday(day: int)
    requires DayOfWeek(day) == 4
    ensures Dates(day, 5, 4) == [day, day + 7, day + 14, day + 21]
  {
    WeekFromThursday(day);
    WeekFromThursday(day + 7);
    WeekFromThursday(day + 14);
    var tail := Dates(day + 21, 5, 1);
    assert tail == [day + 21];
    assert Dates(day + 14, 5, 2) == [day + 14] + tail;
    assert Dates(day + 7, 5, 3) == [day + 7] + Dates(day + 14, 5, 2);
    assert Dates(day, 5, 4) == [day] + Dates(day + 7, 5, 3);
  }

  /** From a Thursday, five working days on is the next Thursday. */
  lemma WeekFromThursday(day: int)
    requires DayOfWeek(day) == 4
    ensures Advance(day, 5) == day + 7
  {
    DayOfWeekShift(day, 1);
    DayOfWeekShift(day, 2);
    DayOfWeekShift(day, 3);
    DayOfWeekShift(day, 4);
    DayOfWeekShift(day, 5);
    DayOfWeekShift(day, 6);
    assert Advance(day, 1) == day + 1;
    assert Advance(day, 2) == day + 4;
    assert Advance(day, 3) == day + 5;
    assert Advance(day, 4) == day + 6;
  }

  /** Builds the schedule as generateLoanSchedule does: push the current date, then move it
      forward one working day at a time, `interval` times. What the result
      guarantees is proved about Schedule (ScheduleProperties, ScheduleAt). */
  method GenerateLoanSchedule(disbursement: int, tenor: int) returns (schedule: seq<int>)
    ensures schedule == Schedule(disbursement, tenor)
    ensures |schedule| == if tenor > 0 then tenor else 0
    ensures |schedule| > 0 ==> schedule[0] == NextWorkingDay(disbursement)
  {
    schedule := [];
    var current := GetNextWorkingDay(disbursement);
    var interval := IntervalFor(tenor);
    ghost var all := Dates(current, interval, if tenor > 0 then tenor else 0);
    ghost var rest: nat := if tenor > 0 then tenor else 0;

    var i := 1;
    while i <= tenor
      invariant rest == if tenor >= i then tenor - i + 1 else 0
      invariant all == schedule + Dates(current, interval, rest)
    {
      ghost var tail := Dates(Advance(current, interval), interval, rest - 1);
      assert Dates(current, interval, rest) == [current] + tail;
      assert all == (schedule + [current]) + tail;
      schedule := schedule + [current];
      current := SkipWorkingDays(current, interval);
      rest := rest - 1;
      i := i + 1;
    }
    assert schedule + [] == schedule;
  }

  /** The inner loop of the schedule builder: `n` calls of GetNextWorkingDay. */
  method SkipWorkingDays(day: int, n: nat) returns (current: int)
    ensures current == Advance(day, n)
  {
    current := day;
    var j := 0;
    while j < n
      invariant 0 <= j <= n
      invariant current == Advance(day, j)
    {
      current := GetNextWorkingDay(current);
      j := j + 1;
    }
  }
}
