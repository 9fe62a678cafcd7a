# Loan schedule and coupon reconciliation of a lending cooperative

This project models the part of the cooperative's member and collector app that
does real computation.

- **Collection schedule** (`utils/loanLogic.ts`, module `LoanLogic`). Given a
  disbursement date and a tenor (the number of installments), it produces the
  due dates. The first due date is the next working day (Monday to Friday)
  strictly after disbursement. Later dates are a fixed number of working days
  apart:
  - 5 for a tenor of 4;
  - 1 for a tenor of 20 or more;
  - `max(1, floor(20 / tenor))` otherwise.

  The module also holds the interest-rate lookup and the offered principals
  and tenors.
- **Coupon reconciliation** (`src/pages/MemberDashboard.tsx`, module
  `MemberDashboard`). `getLoanCoupons` walks a loan's schedule oldest first.
  It pays the coupons from one pool: the amount repaid so far, `total_hutang -
  sisa_hutang`. Each coupon ends up in one of four states:
  - green: fully covered;
  - yellow: partly covered;
  - red: uncovered and due before today;
  - blue: uncovered and not yet due.

  Each coupon also records the amount still owed on it.
  - `getNextSchedule` picks the first loan whose status, lower-cased, is
    `aktif`. If any coupon is red, it reports the earliest red coupon, carrying
    the total owed on all red coupons. Otherwise it reports the first coupon
    that is not green, or nothing.
  - The savings balance is the sum of deposits minus withdrawals over the
    member's savings rows.

Dates are whole day numbers, with day 0 = 1970-01-01, a Thursday. The weekday
is `(day + 4) % 7`, with Sunday 0 and Saturday 6. "Today" is passed in as a day
number that is already cut to the day. Money is whole rupiah (`int`).

Each stateful routine of the app is a method. Each method is proved equal to
a specification function, and the properties are proved about that function:

| source routine | method | function |
|---|---|---|
| `getNextWorkingDay` (while loop) | `GetNextWorkingDay` | `NextWorkingDay` |
| `generateLoanSchedule` (nested for loops pushing into an array) | `GenerateLoanSchedule` | `Schedule` |
| `getLoanCoupons` (a map callback draining a shared pool) | `GetLoanCoupons` | `LoanCoupons`, built on the fold `Reconcile` |

### Edge cases the model keeps

- A tenor of 0 or less gives an empty schedule; nothing rejects it (`Schedule`,
  `GenerateLoanSchedule`).
- A negative repaid amount is used as the pool without clamping, so every
  coupon is red or blue (`ReconcileNothingPaid`).
- A tenor-4 loan disbursed on a Wednesday is first billed the next day,
  Thursday, and then every Thursday (`WednesdayWeeklyExample`).
- A past-due yellow coupon stays yellow and is left out of the overdue total
  (`Expected`, `NextScheduleOverdue`).

## Model

| member | source | states |
|---|---|---|
| LoanLogic.LoanAmounts | utils/loanLogic.ts:2 | the twelve principals a collector can offer, 300000 to 3000000 rupiah |
| LoanLogic.TenorOptions | utils/loanLogic.ts:3 | the offered numbers of installments: 4, 12, 14, 16, 18, 20 and 24 |
| LoanLogic.CalculateInterestRate | utils/loanLogic.ts:8-12 | a principal of 300000 gets 33.33 percent, 400000 gets 25, and every other principal 20; so the rate is between 20 and 33.33 |
| LoanLogic.InterestRateNonIncreasing | utils/loanLogic.ts:2-12 | over the offered principals, a larger loan never has a higher rate; 300000 gets 33.33 and 400000 gets 25 |
| LoanLogic.DayOfWeek | utils/loanLogic.ts:18 | the weekday of a day number is in 0..6 |
| LoanLogic.IsWorkingDay | utils/loanLogic.ts:17-20 | `isWorkingDay`: a day is a working day unless its weekday is 0 (Sunday) or 6 (Saturday); its properties are stated by WeekdayFacts and WorkingDaysPerWeek |
| LoanLogic.WeekdayFacts | utils/loanLogic.ts:17-20 | the epoch is a Thursday; the weekday advances by one each day; a day is not a working day exactly when its weekday is 0 (Sunday) or 6 (Saturday); working days repeat every 7 days |
| LoanLogic.WorkingDaysPerWeek | utils/loanLogic.ts:17-20 | any 7 consecutive days contain exactly 5 working days |
| LoanLogic.WorkingDaysIn | utils/loanLogic.ts:17-20 | the count of working days in (lo, hi] is at most the number of days in that interval |
| LoanLogic.NextWorkingDay | utils/loanLogic.ts:25-32 | the result is strictly after the day, at most 3 days later, and a working day; no working day lies strictly between the two |
| LoanLogic.GetNextWorkingDay | utils/loanLogic.ts:25-32 | the loop that steps one day at a time returns exactly NextWorkingDay(day), with the same three guarantees |
| LoanLogic.NextWorkingDayCountsOne | utils/loanLogic.ts:25-32 | exactly one working day lies in (day, NextWorkingDay(day)] |
| LoanLogic.Advance | utils/loanLogic.ts:60-62 | n steps of NextWorkingDay: 0 steps give the same day; n > 0 steps give a later working day that is at least n days on |
| LoanLogic.AdvanceAdd | utils/loanLogic.ts:60-62 | advancing a working days and then b working days is the same as advancing a + b |
| LoanLogic.AdvanceCountsWorkingDays | utils/loanLogic.ts:59-62 | advancing n steps passes exactly n working days, so none is skipped |
| LoanLogic.IntervalFor | utils/loanLogic.ts:44-54 | the interval is always at least 1; for tenors 1..19 it is the largest step with interval * tenor <= 20 (tenor 4 gives 5); tenors 20 and above give 1 |
| LoanLogic.IntervalAboveOne | utils/loanLogic.ts:46-54 | the interval exceeds 1 if and only if the tenor is between 1 and 10 |
| LoanLogic.OfferedTenorIntervals | utils/loanLogic.ts:46-54 | for the offered tenors {4, 12, 14, 16, 18, 20, 24}, the interval is 5 for tenor 4 and 1 for every other tenor |
| LoanLogic.Dates | utils/loanLogic.ts:56-63 | the date list has exactly `count` entries, and the first one is `first` |
| LoanLogic.DatesStep | utils/loanLogic.ts:56-63 | consecutive entries are `interval` working-day steps apart |
| LoanLogic.DatesAt | utils/loanLogic.ts:56-63 | entry i is i * interval working-day steps after the first |
| LoanLogic.DatesWorkingIncreasing | utils/loanLogic.ts:56-63 | if the list starts on a working day and the interval is at least 1, every entry is a working day and the entries strictly increase |
| LoanLogic.Schedule | utils/loanLogic.ts:37-66 | the schedule has exactly `tenor` dates when tenor >= 1 and none otherwise; the first date is NextWorkingDay(disbursement), strictly after disbursement even when disbursement is a working day |
| LoanLogic.ScheduleWorkingDaysIncreasing | utils/loanLogic.ts:56-63 | every due date is a working day, and the due dates strictly increase |
| LoanLogic.ScheduleSpacing | utils/loanLogic.ts:56-63 | each due date is IntervalFor(tenor) NextWorkingDay steps after the previous one, so exactly that many working days separate them |
| LoanLogic.ScheduleAt | utils/loanLogic.ts:56-63 | due date i is i * IntervalFor(tenor) working days after the first due date |
| LoanLogic.WednesdayWeeklyExample | utils/loanLogic.ts:41-63 | a tenor-4 loan disbursed on Wednesday 1970-01-07 (day 6) is due on the following four Thursdays, days 7, 14, 21 and 28 |
| LoanLogic.ScheduleProperties | utils/loanLogic.ts:56-63 | every due date is a working day, the due dates strictly increase, and exactly IntervalFor(tenor) working days separate consecutive due dates |
| LoanLogic.GenerateLoanSchedule | utils/loanLogic.ts:37-66 | the nested loops return exactly Schedule(disbursement, tenor), so they have its length and first date, and every property proved of Schedule holds of them |
| LoanLogic.SkipWorkingDays | utils/loanLogic.ts:60-62 | the inner loop, calling GetNextWorkingDay n times, lands exactly on Advance(day, n) |
| MemberDashboard.Balance | src/pages/MemberDashboard.tsx:51 | the reduce itself: a running total from the first savings row on, adding each deposit and subtracting each withdrawal, an absent amount as 0; its meaning is stated by BalanceAppend and BalanceIsDepositsMinusWithdrawals |
| MemberDashboard.BalanceAppend | src/pages/MemberDashboard.tsx:51 | the balance of two runs of savings rows is the sum of their balances |
| MemberDashboard.BalanceIsDepositsMinusWithdrawals | src/pages/MemberDashboard.tsx:51 | the folded balance equals the total deposited minus the total withdrawn, where an absent amount counts as 0 |
| MemberDashboard.StartDate | src/pages/MemberDashboard.tsx:204 | the schedule starts on the disbursement date when there is one, and on the approval date otherwise |
| MemberDashboard.PaidPool | src/pages/MemberDashboard.tsx:207 | the pool the coupons are paid from is total debt minus remaining debt, unclamped |
| MemberDashboard.Ticket | src/pages/MemberDashboard.tsx:211-242 | one coupon keeps its period, date and installment, and gets a status consistent with its amount owed: green owes 0; yellow owes strictly between 0 and the installment; red and blue owe the whole installment, red iff the due date is before today; what the coupon absorbed is exactly what left the pool |
| MemberDashboard.Reconcile | src/pages/MemberDashboard.tsx:203-244 | the fold gives one coupon per due date, in order, with periode i+1, the i-th date and the loan's installment, and each coupon is consistent in the same sense as for Ticket |
| MemberDashboard.ReconcileConservesPool | src/pages/MemberDashboard.tsx:207-224 | the coupons absorb in total (installment minus amount owed, summed) exactly the initial pool minus the final pool |
| MemberDashboard.ReconcileSpentAfterUncovered | src/pages/MemberDashboard.tsx:216-234 | after a coupon that is not green, the remaining pool is at most 0 and below the installment |
| MemberDashboard.ReconcileFifo | src/pages/MemberDashboard.tsx:207-234 | a green or yellow coupon has only green coupons before it, so the statuses are some greens, then at most one yellow, then only red or blue |
| MemberDashboard.ReconcileClosedForm | src/pages/MemberDashboard.tsx:207-234 | for an installment >= 0, coupon i equals a closed form that uses the pool left after i installments, pool - i * installment; the final pool is pool - min(max(pool, 0), n * installment) |
| MemberDashboard.ReconcilePaidTotal | src/pages/MemberDashboard.tsx:207-224 | conservation: for an installment >= 0, the coupons absorb min(max(pool, 0), n * installment) |
| MemberDashboard.ReconcileNothingPaid | src/pages/MemberDashboard.tsx:207-234 | a pool that is not clamped, at most 0 and below the installment, leaves every coupon red or blue and the pool unchanged |
| MemberDashboard.ReconcileAllGreen | src/pages/MemberDashboard.tsx:216-219 | a pool of at least n installments leaves every coupon green |
| MemberDashboard.LoanCoupons | src/pages/MemberDashboard.tsx:203-205 | a loan has one coupon per installment of its tenor (none when tenor <= 0) |
| MemberDashboard.LoanCouponsShape | src/pages/MemberDashboard.tsx:203-244 | the coupons of a loan have periode i+1, the installment and the i-th scheduled date, are each consistent, and are in FIFO shape |
| MemberDashboard.DrainPool | src/pages/MemberDashboard.tsx:207-243 | the loop that draws each coupon from one mutable pool returns exactly the fold Reconcile, one coupon per date, in FIFO shape |
| MemberDashboard.GetLoanCoupons | src/pages/MemberDashboard.tsx:203-244 | the loop draining one mutable pool returns exactly LoanCoupons(loan, today): one coupon per due date, with periode i+1, the scheduled date and the installment, each consistent, in FIFO shape |
| MemberDashboard.ToLower | src/pages/MemberDashboard.tsx:249 | lower-casing keeps the length and maps each letter A-Z to a-z, leaving every other character unchanged |
| MemberDashboard.IsActive | src/pages/MemberDashboard.tsx:249 | a loan is active when its status, lower-cased, is `aktif` |
| MemberDashboard.ActiveStatuses | src/pages/MemberDashboard.tsx:249 | a status of 'Aktif' marks a loan active after lower-casing; 'Lunas' and 'Macet' do not |
| MemberDashboard.FindActive | src/pages/MemberDashboard.tsx:249-250 | the found loan is active and every earlier loan is not; when nothing is found, no loan is active |
| MemberDashboard.RedCoupons | src/pages/MemberDashboard.tsx:255 | the filter keeps exactly the red coupons of the list: a coupon is in the result iff it is in the list and red; the result is empty iff no coupon is red; its head is the first red coupon |
| MemberDashboard.RedCouponsAppend | src/pages/MemberDashboard.tsx:255 | the filter keeps the list order: filtering a concatenation is concatenating the filtered parts |
| MemberDashboard.FirstNonGreen | src/pages/MemberDashboard.tsx:269 | the found coupon is not green and every earlier coupon is green; when nothing is found, every coupon is green |
| MemberDashboard.SumDisplay | src/pages/MemberDashboard.tsx:259 | the reduce adding up the amount owed on each coupon of a list, from 0 |
| MemberDashboard.SumRedIsOverdueTotal | src/pages/MemberDashboard.tsx:255-259 | summing the filtered red coupons gives the amount owed on all red coupons of the list |
| MemberDashboard.NextScheduleOf | src/pages/MemberDashboard.tsx:252-277 | a reported summary carries the loan id, is never green, and takes its periode and date from one of the coupons |
| MemberDashboard.NextSchedule | src/pages/MemberDashboard.tsx:248-278 | a summary is reported only for the first active loan, carries that loan's id, and is never green |
| MemberDashboard.NextScheduleOverdue | src/pages/MemberDashboard.tsx:255-265 | when a red coupon exists, the summary is the earliest red coupon's periode, date and installment, with status red and the total owed on all red coupons; yellow coupons are not included |
| MemberDashboard.NextScheduleNotOverdue | src/pages/MemberDashboard.tsx:268-277 | with no red coupon, there is no summary if and only if every coupon is green; otherwise the summary is the first non-green coupon, unchanged, plus the loan id |
| MemberDashboard.NextScheduleNoActiveLoan | src/pages/MemberDashboard.tsx:249-250 | when no loan is active, there is no summary |
| MemberDashboard.ReconcileSettled | src/pages/MemberDashboard.tsx:269-277 | a pool that covers every installment gives no summary |
| MemberDashboard.NextScheduleFullyPaid | src/pages/MemberDashboard.tsx:248-278 | when the repaid amount on the first active loan is at least tenor * installment, there is no summary |
| MemberDashboard.NextScheduleOfLoanUpcoming | src/pages/MemberDashboard.tsx:268-277 | a summary that is not red is a yellow or blue coupon of the active loan, and every coupon before it is green |

## Left out

- React rendering, hooks, routing and theming are not modelled. This covers all
  JSX in every page and component.
- The remote action API (`callApi`, the `AppActions` wrappers), the mock data
  and `localStorage` are I/O. They are not modelled: the model takes the loan
  records and savings rows as values.
- Geolocation, image compression, the downloadable member card and the file
  readers use browser APIs and are not modelled.
- Parsing of date strings, time zones and `setHours(0, 0, 0, 0)` are not
  modelled. Every date, including today, enters as a day number that is already
  cut to the day.
- The mutation history builder is not modelled. It stamps entries with the wall
  clock, computes a floating-point 5% fee and sorts with a library sort.
- The floating-point money displays are not modelled: the total-debt preview
  with a 33.33% rate and the `toFixed` coupon label. The interest rate itself is
  a `real`.
- Money is whole rupiah (`int`). Installments with a fractional part, and the
  rounding of JavaScript numbers, are not modelled.
- The model assumes every field already has the right type. JavaScript's
  coercions of record fields (`Number(...)` of a non-numeric string giving NaN,
  a tenor that arrives as a string or as a non-integer) are not modelled.
- `Number(x || 0)` on a savings row is modelled as "an absent amount is 0".
- IntervalFor: for a tenor of 0 `generateLoanSchedule` computes `20 / 0`, which is Infinity.
  The model returns 1 instead. No due date is produced for that tenor, so the
  value is never used.
- ToLower: only ASCII letters are lower-cased. JavaScript's `toLowerCase` also
  maps other Unicode letters (the Kelvin sign becomes 'k', for example). A
  status spelled with such letters could match `aktif` under `toLowerCase` but not in
  the model.
- The trivial one-liners inside UI handlers are not modelled: the savings
  withdrawal cap, the digit-stripping of amounts and the phone length check.
- Determinism and idempotence hold because every operation is a function of its
  inputs. No separate property states them.
