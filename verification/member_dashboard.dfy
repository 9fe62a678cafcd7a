/** What the member dashboard computes from a member's records: the savings
    balance, the repayment coupons of a loan (one per due date, each classified
    against the amount already repaid), and the single "next amount due" summary.

    Dates are day numbers as in LoanLogic; "today" is a parameter, already cut
    to the day. Money is whole rupiah. */
module MemberDashboard {
  import LoanLogic

  datatype Option<T> = None | Some(value: T)

  // ---------------------------------------------------------------------------
  // Savings balance
  // ---------------------------------------------------------------------------

  /** A savings transaction: a deposit (setor) and a withdrawal (tarik), either of
      which may be absent from the record. */
  datatype SavingsRow = SavingsRow(setor: Option<int>, tarik: Option<int>)

  /** An absent amount reads as 0. */
  function AmountOf(x: Option<int>): int {
    match x
    case None => 0
    case Some(v) => v
  }

  /** Running total of deposits minus withdrawals, accumulated from the first row on. */
  function Balance(rows: seq<SavingsRow>): int {
    if rows == [] then 0
    else Balance(rows[..|rows| - 1]) + (AmountOf(rows[|rows| - 1].setor) - AmountOf(rows[|rows| - 1].tarik))
  }

  function TotalDeposits(rows: seq<SavingsRow>): int {
    if rows == [] then 0 else AmountOf(rows[0].setor) + TotalDeposits(rows[1..])
  }

  function TotalWithdrawals(rows: seq<SavingsRow>): int {
    if rows == [] then 0 else AmountOf(rows[0].tarik) + TotalWithdrawals(rows[1..])
  }

  /** The balance of two runs of transactions is the sum of their balances. */
  lemma {:induction false} BalanceAppend(a: seq<SavingsRow>, b: seq<SavingsRow>)
    ensures Balance(a + b) == Balance(a) + Balance(b)
    decreases |b|
  {
    if b != [] {
      var last := b[|b| - 1];
      var delta := AmountOf(last.setor) - AmountOf(last.tarik);
      assert (a + b)[..|a + b| - 1] == a + b[..|b| - 1];
      assert (a + b)[|a + b| - 1] == last;
      assert Balance(a + b) == Balance(a + b[..|b| - 1]) + delta;
      assert Balance(b) == Balance(b[..|b| - 1]) + delta;
      BalanceAppend(a, b[..|b| - 1]);
    } else {
      assert a + b == a;
    }
  }

  /** The balance is everything deposited minus everything withdrawn. */
  lemma {:induction false} BalanceIsDepositsMinusWithdrawals(rows: seq<SavingsRow>)
    ensures Balance(rows) == TotalDeposits(rows) - TotalWithdrawals(rows)
  {
    if rows != [] {
      BalanceIsDepositsMinusWithdrawals(rows[1..]);
      assert rows == [rows[0]] + rows[1..];
      BalanceAppend([rows[0]], rows[1..]);
    }
  }

  // ---------------------------------------------------------------------------
  // Loans and coupons
  // ---------------------------------------------------------------------------

  /** An active loan record as the dashboard reads it. */
  datatype Loan = Loan(
    idPinjaman: string,
    tanggalAcc: int,          // approval day
    tanggalCair: Option<int>, // disbursement day, absent until disbursed
    tenor: int,
    cicilan: int,             // installment amount
    totalHutang: int,         // total debt
    sisaHutang: int,          // debt still outstanding
    status: string)

  /** green: fully covered; yellow: partly covered; red: uncovered and past due;
      blue: uncovered and not yet due. */
  datatype Status = Green | Yellow | Red | Blue

  /** One installment of a loan. displayNominal is what is still owed on it. */
  datatype Coupon = Coupon(periode: int, tgl: int, displayNominal: int, nominalAsli: int, status: Status)

  /** The schedule starts from the disbursement day, or from the approval day
      when the loan has not been disbursed. */
  function StartDate(loan: Loan): int {
    match loan.tanggalCair
    case Some(d) => d
    case None => loan.tanggalAcc
  }

  /** The amount repaid so far: the pool the coupons are paid from. */
  function PaidPool(loan: Loan): int {
    loan.totalHutang - loan.sisaHutang
  }

  /** How a coupon's status, amount owed and due date fit together. */
  predicate Consistent(c: Coupon, today: int) {
    match c.status
    case Green => c.displayNominal == 0
    case Yellow => 0 < c.displayNominal < c.nominalAsli
    case Red => c.displayNominal == c.nominalAsli && c.tgl < today
    case Blue => c.displayNominal == c.nominalAsli && today <= c.tgl
  }

  /** One coupon drawn from the pool: the coupon and the pool left afterwards. */
  function Ticket(periode: int, tgl: int, nominal: int, pool: int, today: int): (r: (Coupon, int))
    ensures r.0.periode == periode && r.0.tgl == tgl && r.0.nominalAsli == nominal
    ensures Consistent(r.0, today)
    ensures r.0.nominalAsli - r.0.displayNominal == pool - r.1
  {
    if pool >= nominal then (Coupon(periode, tgl, 0, nominal, Green), pool - nominal)
    else if pool > 0 then (Coupon(periode, tgl, nominal - pool, nominal, Yellow), 0)
    else (Coupon(periode, tgl, nominal, nominal, if tgl < today then Red else Blue), pool)
  }

  /** The reconciliation pass as a fold over the due dates, oldest first, carrying
      the coupons so far and what is left of the pool. */
  function Reconcile(dates: seq<int>, nominal: int, pool: int, today: int): (r: (seq<Coupon>, int))
    ensures |r.0| == |dates|
    ensures forall i :: 0 <= i < |dates| ==>
              r.0[i].periode == i + 1 && r.0[i].tgl == dates[i] && r.0[i].nominalAsli == nominal
    ensures forall i :: 0 <= i < |dates| ==> Consistent(r.0[i], today)
    decreases |dates|
  {
    if dates == [] then ([], pool)
    else
      var prev := Reconcile(dates[..|dates| - 1], nominal, pool, today);
      var t := Ticket(|dates|, dates[|dates| - 1], nominal, prev.1, today);
      (prev.0 + [t.0], t.1)
  }

  /** Amount of the pool the coupons absorbed. */
  function Paid(cs: seq<Coupon>): int {
    if cs == [] then 0
    else Paid(cs[..|cs| - 1]) + (cs[|cs| - 1].nominalAsli - cs[|cs| - 1].displayNominal)
  }

  /** Nothing is created or lost: the coupons absorb exactly what leaves the pool. */
  lemma {:induction false} ReconcileConservesPool(dates: seq<int>, nominal: int, pool: int, today: int)
    ensures Paid(Reconcile(dates, nominal, pool, today).0) == pool - Reconcile(dates, nominal, pool, today).1
    decreases |dates|
  {
    if dates != [] {
      var r := Reconcile(dates, nominal, pool, today);
      var prev := Reconcile(dates[..|dates| - 1], nominal, pool, today);
      ReconcileConservesPool(dates[..|dates| - 1], nominal, pool, today);
      assert r.0[..|r.0| - 1] == prev.0;
    }
  }

  /** Once a coupon is not fully covered, the pool is spent: it is at most 0 and
      below the installment, so every later coupon is red or blue. */
  lemma {:induction false} ReconcileSpentAfterUncovered(dates: seq<int>, nominal: int, pool: int, today: int)
    requires dates != []
    requires Reconcile(dates, nominal, pool, today).0[|dates| - 1].status != Green
    ensures Reconcile(dates, nominal, pool, today).1 <= 0
    ensures Reconcile(dates, nominal, pool, today).1 < nominal
  {
  }

  /** FIFO allocation: a green or yellow coupon is preceded only by green coupons.
      So the statuses are a run of green, at most one yellow, then red or blue. */
  predicate FifoShape(cs: seq<Coupon>) {
    forall i, j :: 0 <= i < j < |cs| && (cs[j].status == Green || cs[j].status == Yellow) ==>
      cs[i].status == Green
  }

  lemma {:induction false} ReconcileFifo(dates: seq<int>, nominal: int, pool: int, today: int)
    ensures FifoShape(Reconcile(dates, nominal, pool, today).0)
    decreases |dates|
  {
    if dates != [] {
      var n := |dates|;
      var r := Reconcile(dates, nominal, pool, today);
      var front := dates[..n - 1];
      var prev := Reconcile(front, nominal, pool, today);
      ReconcileFifo(front, nominal, pool, today);
      assert r.0[..n - 1] == prev.0;
      var last := r.0[n - 1];
      if n > 1 && prev.0[n - 2].status != Green {
        ReconcileSpentAfterUncovered(front, nominal, pool, today);
        assert last.status == Red || last.status == Blue;
      }
      forall i, j | 0 <= i < j < n && (r.0[j].status == Green || r.0[j].status == Yellow)
        ensures r.0[i].status == Green
      {
        if j < n - 1 {
          assert r.0[i] == prev.0[i] && r.0[j] == prev.0[j];
        } else {
          assert prev.0[n - 2].status == Green;
          assert r.0[i] == prev.0[i];
          if i < n - 2 {
            assert prev.0[i].status == Green;
          }
        }
      }
    }
  }

  function Min(a: int, b: int): int {
    if a < b then a else b
  }

  /** The i-th coupon (0-based) written without the fold: the earlier coupons
      have claimed i * nominal of the pool, and what is left of it decides. */
  function Expected(i: nat, tgl: int, nominal: int, pool: int, today: int): Coupon {
    var left := pool - i * nominal;
    if left >= nominal then Coupon(i + 1, tgl, 0, nominal, Green)
    else if left > 0 then Coupon(i + 1, tgl, nominal - left, nominal, Yellow)
    else Coupon(i + 1, tgl, nominal, nominal, if tgl < today then Red else Blue)
  }

  /** One step of the closed form: after i coupons the pool is
      pool - min(max(pool, 0), i * nominal), and the next coupon is Expected(i, ...). */
  lemma TicketClosedForm(i: nat, tgl: int, nominal: int, pool: int, today: int, before: int, left: int)
    requires nominal >= 0 && before == i * nominal && before >= 0
    requires left == pool - Min(LoanLogic.Max(pool, 0), before)
    ensures Ticket(i + 1, tgl, nominal, left, today).0 == Expected(i, tgl, nominal, pool, today)
    ensures Ticket(i + 1, tgl, nominal, left, today).1 == pool - Min(LoanLogic.Max(pool, 0), before + nominal)
  {
  }

  /** For a non-negative installment the fold agrees with the closed form, and the
      pool ends reduced by min(max(pool, 0), n * nominal). A negative pool is not
      clamped; it simply leaves every coupon uncovered. */
  lemma {:induction false} ReconcileClosedForm(dates: seq<int>, nominal: int, pool: int, today: int)
    requires nominal >= 0
    ensures Reconcile(dates, nominal, pool, today).1 == pool - Min(LoanLogic.Max(pool, 0), |dates| * nominal)
    ensures forall i :: 0 <= i < |dates| ==>
              Reconcile(dates, nominal, pool, today).0[i] == Expected(i, dates[i], nominal, pool, today)
    decreases |dates|
  {
    if dates != [] {
      var n := |dates|;
      var r := Reconcile(dates, nominal, pool, today);
      var prev := Reconcile(dates[..n - 1], nominal, pool, today);
      var t := Ticket(n, dates[n - 1], nominal, prev.1, today);
      assert r == (prev.0 + [t.0], t.1);
      ReconcileClosedForm(dates[..n - 1], nominal, pool, today);
      forall i | 0 <= i < n - 1
        ensures r.0[i] == Expected(i, dates[i], nominal, pool, today)
      {
        assert r.0[i] == prev.0[i];
        assert dates[..n - 1][i] == dates[i];
      }
      var before := (n - 1) * nominal;
      MulNonNegative(n - 1, nominal);
      MulSucc(n - 1, nominal);
      TicketClosedForm(n - 1, dates[n - 1], nominal, pool, today, before, prev.1);
      assert r.0[n - 1] == t.0;
    }
  }

  lemma MulSucc(a: int, b: int)
    ensures (a + 1) * b == a * b + b
  {
  }

  lemma MulMonotone(a: int, b: int, c: int)
    requires a <= b && c >= 0
    ensures a * c <= b * c
  {
  }

  lemma MulNonNegative(a: nat, b: int)
    requires b >= 0
    ensures a * b >= 0
  {
  }

  /** Conservation in closed form: the coupons absorb min(max(pool, 0), nominal * n). */
  lemma ReconcilePaidTotal(dates: seq<int>, nominal: int, pool: int, today: int)
    requires nominal >= 0
    ensures Paid(Reconcile(dates, nominal, pool, today).0) == Min(LoanLogic.Max(pool, 0), |dates| * nominal)
  {
    ReconcileConservesPool(dates, nominal, pool, today);
    ReconcileClosedForm(dates, nominal, pool, today);
  }

  /** A pool that is not positive and below the installment covers nothing: every
      coupon is red or blue and the pool is left as it was. */
  lemma {:induction false} ReconcileNothingPaid(dates: seq<int>, nominal: int, pool: int, today: int)
    requires pool <= 0 && pool < nominal
    ensures Reconcile(dates, nominal, pool, today).1 == pool
    ensures forall i :: 0 <= i < |dates| ==>
              Reconcile(dates, nominal, pool, today).0[i].status in {Red, Blue}
    decreases |dates|
  {
    if dates != [] {
      var n := |dates|;
      var r := Reconcile(dates, nominal, pool, today);
      var prev := Reconcile(dates[..n - 1], nominal, pool, today);
      ReconcileNothingPaid(dates[..n - 1], nominal, pool, today);
      assert r.0[..n - 1] == prev.0;
      forall i | 0 <= i < n - 1
        ensures r.0[i].status in {Red, Blue}
      {
        assert r.0[i] == prev.0[i];
      }
    }
  }

  /** The fold over a prefix one date longer adds that date's ticket. */
  lemma ReconcileStep(dates: seq<int>, i: nat, nominal: int, pool: int, today: int)
    requires i < |dates|
    ensures Reconcile(dates[..i + 1], nominal, pool, today)
         == (Reconcile(dates[..i], nominal, pool, today).0
               + [Ticket(i + 1, dates[i], nominal, Reconcile(dates[..i], nominal, pool, today).1, today).0],
             Ticket(i + 1, dates[i], nominal, Reconcile(dates[..i], nominal, pool, today).1, today).1)
  {
    assert dates[..i + 1][..i] == dates[..i];
  }

  /** The coupons of a loan: its schedule reconciled against what was repaid. */
  function LoanCoupons(loan: Loan, today: int): (cs: seq<Coupon>)
    ensures |cs| == if loan.tenor > 0 then loan.tenor else 0
  {
    Reconcile(LoanLogic.Schedule(StartDate(loan), loan.tenor), loan.cicilan, PaidPool(loan), today).0
  }

  /** Every loan's coupons follow its schedule, are consistent, and have FIFO shape. */
  lemma LoanCouponsShape(loan: Loan, today: int)
    ensures forall i :: 0 <= i < |LoanCoupons(loan, today)| ==>
              LoanCoupons(loan, today)[i].periode == i + 1 &&
              LoanCoupons(loan, today)[i].nominalAsli == loan.cicilan &&
              LoanCoupons(loan, today)[i].tgl == LoanLogic.Schedule(StartDate(loan), loan.tenor)[i] &&
              Consistent(LoanCoupons(loan, today)[i], today)
    ensures FifoShape(LoanCoupons(loan, today))
  {
    ReconcileFifo(LoanLogic.Schedule(StartDate(loan), loan.tenor), loan.cicilan, PaidPool(loan), today);
  }

  /** The map callback of the dashboard: walks the dates in order, drawing each
      coupon from one mutable pool. */
  method DrainPool(dates: seq<int>, nominal: int, pool: int, today: int) returns (coupons: seq<Coupon>)
    ensures coupons == Reconcile(dates, nominal, pool, today).0
    ensures |coupons| == |dates|
    ensures FifoShape(coupons)
  {
    var remainingPaidPool := pool;
    coupons := [];
    var i := 0;
    while i < |dates|
      invariant 0 <= i <= |dates|
      invariant (coupons, remainingPaidPool) == Reconcile(dates[..i], nominal, pool, today)
    {
      ghost var ticket := Ticket(i + 1, dates[i], nominal, remainingPaidPool, today);
      ReconcileStep(dates, i, nominal, pool, today);
      var nominalAsli := nominal;
      var sisaTagihanTiket := nominalAsli;
      var status := Blue;
      if remainingPaidPool >= nominalAsli {
        sisaTagihanTiket := 0;
        remainingPaidPool := remainingPaidPool - nominalAsli;
        status := Green;
      } else if remainingPaidPool > 0 {
        sisaTagihanTiket := nominalAsli - remainingPaidPool;
        remainingPaidPool := 0;
        status := Yellow;
      } else {
        sisaTagihanTiket := nominalAsli;
        if dates[i] < today {
          status := Red;
        } else {
          status := Blue;
        }
      }
      assert ticket == (Coupon(i + 1, dates[i], sisaTagihanTiket, nominalAsli, status), remainingPaidPool);
      coupons := coupons + [Coupon(i + 1, dates[i], sisaTagihanTiket, nominalAsli, status)];
      i := i + 1;
    }
    assert dates[..i] == dates;
    ReconcileFifo(dates, nominal, pool, today);
  }

  /** The dashboard's coupon list for a loan: generate the schedule from the start
      date, then drain the repaid amount over it. */
  method GetLoanCoupons(loan: Loan, today: int) returns (coupons: seq<Coupon>)
    ensures coupons == LoanCoupons(loan, today)
    ensures |coupons| == if loan.tenor > 0 then loan.tenor else 0
    ensures forall i :: 0 <= i < |coupons| ==>
              coupons[i].periode == i + 1 && coupons[i].nominalAsli == loan.cicilan &&
              coupons[i].tgl == LoanLogic.Schedule(StartDate(loan), loan.tenor)[i] && Consistent(coupons[i], today)
    ensures FifoShape(coupons)
  {
    var startDate := StartDate(loan);
    var dates := LoanLogic.GenerateLoanSchedule(startDate, loan.tenor);
    coupons := DrainPool(dates, loan.cicilan, loan.totalHutang - loan.sisaHutang, today);
    LoanCouponsShape(loan, today);
  }

  // ---------------------------------------------------------------------------
  // The next amount due
  // ---------------------------------------------------------------------------

  /** The summary shown to the member: a coupon tagged with its loan. */
  datatype NextDue = NextDue(periode: int, tgl: int, displayNominal: int, nominalAsli: int, status: Status, loanId: string)

  /** ASCII lower-casing of a status string. */
  function ToLower(s: string): (r: string)
    ensures |r| == |s|
    ensures forall i :: 0 <= i < |s| ==>
              r[i] == if 'A' <= s[i] <= 'Z' then (s[i] as int + 32) as char else s[i]
  {
    if s == [] then []
    else [if 'A' <= s[0] <= 'Z' then (s[0] as int + 32) as char else s[0]] + ToLower(s[1..])
  }

  predicate IsActive(loan: Loan) {
    ToLower(loan.status) == "aktif"
  }

  /** The three statuses a loan record carries: only 'Aktif' is active. */
  lemma ActiveStatuses(loan: Loan)
    ensures loan.status == "Aktif" ==> IsActive(loan)
    ensures loan.status == "Lunas" || loan.status == "Macet" ==> !IsActive(loan)
  {
    if loan.status == "Aktif" {
      assert "Aktif"[1..] == "ktif" && "ktif"[1..] == "tif" && "tif"[1..] == "if" && "if"[1..] == "f";
      assert ToLower("f") == "f";
      assert ToLower("if") == "if";
      assert ToLower("tif") == "tif";
      assert ToLower("ktif") == "ktif";
    } else if loan.status == "Lunas" {
      assert ToLower(loan.status)[0] == 'l';
    } else if loan.status == "Macet" {
      assert ToLower(loan.status)[0] == 'm';
    }
  }

  /** Index of the first active loan, if any. */
  function FindActive(loans: seq<Loan>): (r: Option<nat>)
    ensures r.Some? ==> r.value < |loans| && IsActive(loans[r.value]) &&
                        forall j :: 0 <= j < r.value ==> !IsActive(loans[j])
    ensures r.None? ==> forall j :: 0 <= j < |loans| ==> !IsActive(loans[j])
  {
    if loans == [] then None
    else if IsActive(loans[0]) then Some(0)
    else match FindActive(loans[1..])
         case None => None
         case Some(k) => Some(k + 1)
  }

  /** The red coupons, in order. */
  function RedCoupons(cs: seq<Coupon>): (reds: seq<Coupon>)
    ensures |reds| <= |cs|
    ensures forall c :: c in reds <==> c in cs && c.status == Red
    ensures |reds| == 0 <==> forall j :: 0 <= j < |cs| ==> cs[j].status != Red
    ensures forall k :: 0 <= k < |cs| && cs[k].status == Red && (forall j :: 0 <= j < k ==> cs[j].status != Red) ==>
              |reds| > 0 && reds[0] == cs[k]
  {
    if cs == [] then []
    else (if cs[0].status == Red then [cs[0]] else []) + RedCoupons(cs[1..])
  }

  /** Sum of the amounts owed on a list of coupons. */
  function SumDisplay(cs: seq<Coupon>): int {
    if cs == [] then 0 else cs[0].displayNominal + SumDisplay(cs[1..])
  }

  /** Amount owed on the red coupons, summed over the coupon list itself. */
  function OverdueTotal(cs: seq<Coupon>): int {
    if cs == [] then 0
    else OverdueTotal(cs[..|cs| - 1]) + (if cs[|cs| - 1].status == Red then cs[|cs| - 1].displayNominal else 0)
  }

  /** Index of the first coupon that is not green, if any. */
  function FirstNonGreen(cs: seq<Coupon>): (r: Option<nat>)
    ensures r.Some? ==> r.value < |cs| && cs[r.value].status != Green &&
                        forall j :: 0 <= j < r.value ==> cs[j].status == Green
    ensures r.None? ==> forall j :: 0 <= j < |cs| ==> cs[j].status == Green
  {
    if cs == [] then None
    else if cs[0].status != Green then Some(0)
    else match FirstNonGreen(cs[1..])
         case None => None
         case Some(k) => Some(k + 1)
  }

  function Tagged(c: Coupon, loanId: string): NextDue {
    NextDue(c.periode, c.tgl, c.displayNominal, c.nominalAsli, c.status, loanId)
  }

  /** Any red coupon: the earliest one, carrying the total owed on all red
      coupons. Otherwise the first coupon that is not green, or nothing. */
  function NextScheduleOf(cs: seq<Coupon>, loanId: string): (r: Option<NextDue>)
    ensures r.Some? ==> r.value.loanId == loanId && r.value.status != Green
    ensures r.Some? ==> exists k :: 0 <= k < |cs| && cs[k].periode == r.value.periode && cs[k].tgl == r.value.tgl
  {
    var reds := RedCoupons(cs);
    if |reds| > 0 then
      Some(NextDue(reds[0].periode, reds[0].tgl, SumDisplay(reds), reds[0].nominalAsli, Red, loanId))
    else
      match FirstNonGreen(cs)
      case None => None
      case Some(k) => Some(Tagged(cs[k], loanId))
  }

  /** The next amount due on the member's first active loan. */
  function NextSchedule(loans: seq<Loan>, today: int): (r: Option<NextDue>)
    ensures r.Some? ==> FindActive(loans).Some? && r.value.loanId == loans[FindActive(loans).value].idPinjaman
    ensures r.Some? ==> r.value.status != Green
  {
    match FindActive(loans)
    case None => None
    case Some(i) => NextScheduleOf(LoanCoupons(loans[i], today), loans[i].idPinjaman)
  }

  /** The filter keeps the order of the list: filtering a concatenation is
      concatenating the filtered parts. */
  lemma {:induction false} RedCouponsAppend(a: seq<Coupon>, b: seq<Coupon>)
    ensures RedCoupons(a + b) == RedCoupons(a) + RedCoupons(b)
  {
    if a == [] {
      assert a + b == b;
    } else {
      assert (a + b)[0] == a[0];
      assert (a + b)[1..] == a[1..] + b;
      RedCouponsAppend(a[1..], b);
    }
  }

  lemma {:induction false} OverdueTotalCons(c: Coupon, cs: seq<Coupon>)
    ensures OverdueTotal([c] + cs) == (if c.status == Red then c.displayNominal else 0) + OverdueTotal(cs)
    decreases |cs|
  {
    if cs != [] {
      var whole := [c] + cs;
      assert whole[..|whole| - 1] == [c] + cs[..|cs| - 1];
      OverdueTotalCons(c, cs[..|cs| - 1]);
    }
  }

  /** Summing the filtered red coupons equals summing the red amounts in place. */
  lemma {:induction false} SumRedIsOverdueTotal(cs: seq<Coupon>)
    ensures SumDisplay(RedCoupons(cs)) == OverdueTotal(cs)
  {
    if cs != [] {
      SumRedIsOverdueTotal(cs[1..]);
      assert cs == [cs[0]] + cs[1..];
      var reds := RedCoupons(cs);
      if cs[0].status == Red {
        assert reds == [cs[0]] + RedCoupons(cs[1..]);
        assert reds[1..] == RedCoupons(cs[1..]);
        assert SumDisplay(reds) == cs[0].displayNominal + SumDisplay(RedCoupons(cs[1..]));
      } else {
        assert reds == RedCoupons(cs[1..]);
      }
      OverdueTotalCons(cs[0], cs[1..]);
    }
  }

  /** With a red coupon, the summary is the earliest red coupon, status red, with
      the amount owed on all red coupons; yellow coupons are not part of it. */
  lemma NextScheduleOverdue(cs: seq<Coupon>, loanId: string, k: nat)
    requires k < |cs| && cs[k].status == Red
    requires forall j :: 0 <= j < k ==> cs[j].status != Red
    ensures NextScheduleOf(cs, loanId)
         == Some(NextDue(cs[k].periode, cs[k].tgl, OverdueTotal(cs), cs[k].nominalAsli, Red, loanId))
  {
    SumRedIsOverdueTotal(cs);
  }

  /** Without a red coupon, the summary is the first coupon that is not green,
      unchanged, or nothing when every coupon is green. */
  lemma NextScheduleNotOverdue(cs: seq<Coupon>, loanId: string)
    requires forall j :: 0 <= j < |cs| ==> cs[j].status != Red
    ensures NextScheduleOf(cs, loanId).None? <==> forall j :: 0 <= j < |cs| ==> cs[j].status == Green
    ensures forall k :: 0 <= k < |cs| && cs[k].status != Green && (forall j :: 0 <= j < k ==> cs[j].status == Green) ==>
              NextScheduleOf(cs, loanId) == Some(Tagged(cs[k], loanId))
  {
  }

  /** No active loan: nothing is due. */
  lemma NextScheduleNoActiveLoan(loans: seq<Loan>, today: int)
    requires forall j :: 0 <= j < |loans| ==> !IsActive(loans[j])
    ensures NextSchedule(loans, today) == None
  {
  }

  /** A pool that covers every installment leaves every coupon green. */
  lemma ReconcileAllGreen(dates: seq<int>, nominal: int, pool: int, today: int)
    requires nominal >= 0 && pool >= |dates| * nominal
    ensures forall i :: 0 <= i < |dates| ==> Reconcile(dates, nominal, pool, today).0[i].status == Green
  {
    ReconcileClosedForm(dates, nominal, pool, today);
    forall i | 0 <= i < |dates|
      ensures Reconcile(dates, nominal, pool, today).0[i].status == Green
    {
      MulMonotone(i + 1, |dates|, nominal);
      MulSucc(i, nominal);
    }
  }

  /** When the repaid amount covers every installment of the first active loan,
      nothing is due. */
  lemma NextScheduleFullyPaid(loans: seq<Loan>, today: int, a: nat)
    requires FindActive(loans) == Some(a)
    requires loans[a].cicilan >= 0
    requires PaidPool(loans[a]) >= loans[a].tenor * loans[a].cicilan
    ensures NextSchedule(loans, today) == None
  {
    var loan := loans[a];
    var dates := LoanLogic.Schedule(StartDate(loan), loan.tenor);
    var pool := PaidPool(loan);
    if loan.tenor > 0 {
      assert |dates| == loan.tenor;
      ReconcileSettled(dates, loan.cicilan, pool, today, loan.idPinjaman);
    } else {
      assert dates == [] && Reconcile(dates, loan.cicilan, pool, today).0 == [];
    }
    assert NextSchedule(loans, today) == NextScheduleOf(Reconcile(dates, loan.cicilan, pool, today).0, loan.idPinjaman);
  }

  lemma ReconcileSettled(dates: seq<int>, nominal: int, pool: int, today: int, loanId: string)
    requires nominal >= 0 && pool >= |dates| * nominal
    ensures NextScheduleOf(Reconcile(dates, nominal, pool, today).0, loanId) == None
  {
    ReconcileAllGreen(dates, nominal, pool, today);
    NextScheduleNotOverdue(Reconcile(dates, nominal, pool, today).0, loanId);
  }

  /** With coupons from the reconciler and no red one, the summary, when there is
      one, is a yellow or blue coupon preceded only by green coupons. */
  lemma NextScheduleOfLoanUpcoming(loans: seq<Loan>, today: int, a: nat)
    requires FindActive(loans) == Some(a)
    requires NextSchedule(loans, today).Some?
    requires NextSchedule(loans, today).value.status != Red
    ensures NextSchedule(loans, today).value.status in {Yellow, Blue}
    ensures NextSchedule(loans, today).value.loanId == loans[a].idPinjaman
    ensures forall j :: 0 <= j < NextSchedule(loans, today).value.periode - 1 ==>
              LoanCoupons(loans[a], today)[j].status == Green
  {
    var cs := LoanCoupons(loans[a], today);
    var dates := LoanLogic.Schedule(StartDate(loans[a]), loans[a].tenor);
    assert forall i :: 0 <= i < |cs| ==> cs[i].periode == i + 1;
    if |RedCoupons(cs)| > 0 {
      assert false;
    }
  }
}
