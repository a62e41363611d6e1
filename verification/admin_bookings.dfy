/** The admin bookings page: the balance still owed on a booking (the first
    payment by id is the booking deposit and is owed on top of the service
    price), the "Paid in Full" test, the status actions each booking offers,
    and the list shown for a date. */
module AdminBookings {
  import opened Common
  import opened Seqs

  /** Sum of all payment amounts. With no refunds (no negative amount) it is
      never negative and at least each single payment. */
  function TotalPaid(payments: seq<Payment>): (r: int)
    ensures (forall i :: 0 <= i < |payments| ==> payments[i].amount >= 0) ==>
              r >= 0 && forall i :: 0 <= i < |payments| ==> payments[i].amount <= r
  {
    if |payments| == 0 then 0
    else
      var init := payments[..|payments| - 1];
      assert forall i :: 0 <= i < |init| ==> init[i] == payments[i];
      TotalPaid(init) + payments[|payments| - 1].amount
  }

  lemma TotalPaidAppend(payments: seq<Payment>, p: Payment)
    ensures TotalPaid(payments + [p]) == TotalPaid(payments) + p.amount
  {
    assert (payments + [p])[..|payments|] == payments;
  }

  function PaymentId(p: Payment): int {
    p.id
  }

  /** The amount of the first payment once the payments are sorted by id, 0
      without payments: the page takes it to be the booking deposit. */
  function InitialDeposit(payments: seq<Payment>): (d: int)
    ensures |payments| == 0 ==> d == 0
    ensures |payments| > 0 ==> exists i :: 0 <= i < |payments| && payments[i].amount == d
                                  && (forall j :: 0 <= j < |payments| ==> payments[i].id <= payments[j].id)
                                  && (forall j :: 0 <= j < i ==> payments[j].id > payments[i].id)
  {
    if |payments| == 0 then 0
    else
      var sorted := SortByKey(payments, PaymentId);
      SortHead(payments, PaymentId);
      FirstIsEarliest(payments);
      sorted[0].amount
  }

  /** The first occurrence of the least id is the element `FirstMin` picks. */
  lemma {:induction false} FirstIsEarliest(payments: seq<Payment>)
    requires |payments| > 0
    ensures exists i :: 0 <= i < |payments| && payments[i] == FirstMin(payments, PaymentId)
                     && (forall j :: 0 <= j < i ==> payments[j].id > payments[i].id)
  {
    if |payments| > 1 {
      FirstIsEarliest(payments[1..]);
      var m := FirstMin(payments[1..], PaymentId);
      if payments[0].id > m.id {
        var i :| 0 <= i < |payments| - 1 && payments[1..][i] == m
                 && (forall j :: 0 <= j < i ==> payments[1..][j].id > payments[1..][i].id);
        assert payments[i + 1] == m;
        assert forall j :: 0 <= j < i + 1 ==> payments[j].id > m.id by {
          forall j | 0 <= j < i + 1 ensures payments[j].id > m.id {
            if j > 0 { assert payments[j] == payments[1..][j - 1]; }
          }
        }
      } else {
        assert payments[0] == FirstMin(payments, PaymentId);
      }
    } else {
      assert payments[0] == FirstMin(payments, PaymentId);
    }
  }

  /** The balance the Record Payment dialog proposes: service price plus
      deposit minus everything paid, never below zero. */
  function RemainingBalance(price: int, payments: seq<Payment>): (r: int)
    ensures r >= 0
    ensures r >= price + InitialDeposit(payments) - TotalPaid(payments)
    ensures r == 0 || r == price + InitialDeposit(payments) - TotalPaid(payments)
  {
    var owed := price + InitialDeposit(payments) - TotalPaid(payments);
    if owed > 0 then owed else 0
  }

  /** What the dialog lists as "Paid Towards Service": the payments beyond
      the deposit, never below zero. */
  function PaidTowardsService(payments: seq<Payment>): (r: int)
    ensures r >= 0 && r >= TotalPaid(payments) - InitialDeposit(payments)
    ensures r == 0 || r == TotalPaid(payments) - InitialDeposit(payments)
  {
    var paid := TotalPaid(payments) - InitialDeposit(payments);
    if paid > 0 then paid else 0
  }

  /** The two figures the dialog shows agree: once the deposit is counted
      as paid, what is owed is the service price less what was paid towards
      it, never below zero. */
  lemma BalanceLessPaidTowardsService(price: int, payments: seq<Payment>)
    requires forall i :: 0 <= i < |payments| ==> payments[i].amount >= 0
    ensures RemainingBalance(price, payments) == if price - PaidTowardsService(payments) > 0
                                                then price - PaidTowardsService(payments) else 0
  {
    assert TotalPaid(payments) >= InitialDeposit(payments);
  }

  /** Without payments, or with the deposit alone, the whole service price
      is still owed: the deposit is not deducted from it. */
  lemma DepositNotDeducted(price: int, deposit: Payment)
    requires price >= 0
    ensures RemainingBalance(price, []) == price
    ensures RemainingBalance(price, [deposit]) == price
  {
    assert TotalPaid([deposit]) == TotalPaid([deposit][..0]) + deposit.amount;
  }

  /** Recording a payment of exactly the proposed balance, with an id that
      sorts after the deposit's, leaves nothing owed. */
  lemma {:induction false} SettlingPaymentClearsBalance(price: int, payments: seq<Payment>, p: Payment)
    requires |payments| > 0
    requires p.id > FirstMin(payments, PaymentId).id
    requires p.amount == RemainingBalance(price, payments)
    ensures RemainingBalance(price, payments + [p]) == 0
  {
    FirstMinAppend(payments, p, PaymentId);
    SortHead(payments, PaymentId);
    SortHead(payments + [p], PaymentId);
    TotalPaidAppend(payments, p);
  }

  /** The worked example: a $150 service, a $50 deposit, then $150 in cash. */
  lemma DepositScenario()
    ensures RemainingBalance(15000, [Payment(1, 5000)]) == 15000
    ensures RemainingBalance(15000, [Payment(1, 5000), Payment(2, 15000)]) == 0
  {
    DepositNotDeducted(15000, Payment(1, 5000));
    assert FirstMin([Payment(1, 5000)], PaymentId) == Payment(1, 5000);
    SettlingPaymentClearsBalance(15000, [Payment(1, 5000)], Payment(2, 15000));
    assert [Payment(1, 5000)] + [Payment(2, 15000)] == [Payment(1, 5000), Payment(2, 15000)];
  }

  /** The "Paid in Full" badge: total paid reaches price plus deposit less the
      one-cent tolerance. */
  predicate PaidInFull(b: Booking) {
    TotalPaid(b.payments) >= b.price + InitialDeposit(b.payments) - 1
  }

  /** The badge is shown exactly when the dialog would propose at most one
      cent. */
  lemma PaidInFullIffNoBalance(b: Booking)
    ensures PaidInFull(b) <==> RemainingBalance(b.price, b.payments) <= 1
  {
  }

  /** The card charge for a balance paid online: the amount plus the 3.5%
      processing fee, rounded to the cent. */
  function CardChargeCents(amount: int): (r: int)
    ensures Abs(1000 * r - 1035 * amount) <= 500
    ensures amount >= 0 ==> r >= amount
  {
    RoundHalfUp(1035 * amount, 1000)
  }

  /** The buttons and badges the page shows on a booking. */
  datatype AdminAction =
    | StartAppointment
    | MarkComplete
    | RecordPayment
    | PaidInFullBadge
    | Reschedule
    | CancelBooking
    | RestoreToBooked

  /** The actions offered on booking `b`, keyed on its exact status string. */
  function OfferedActions(b: Booking): (acts: set<AdminAction>)
    ensures StartAppointment in acts <==> b.status == Booked
    ensures MarkComplete in acts <==> b.status == InProgress
    ensures RestoreToBooked in acts <==> b.status == Cancelled
  {
    (if b.status == Booked then {StartAppointment} else {})
    + (if b.status == InProgress then {MarkComplete} else {})
    + (if b.status == Completed then (if PaidInFull(b) then {PaidInFullBadge} else {RecordPayment}) else {})
    + (if b.status != Cancelled && b.status != Completed then {Reschedule, CancelBooking} else {})
    + (if b.status == Cancelled then {RestoreToBooked} else {})
  }

  /** The status an action sets, if it sets one. */
  function StatusAfter(a: AdminAction): (r: Option<string>)
    ensures r.Some? <==> a in {StartAppointment, MarkComplete, CancelBooking, RestoreToBooked}
    ensures r.Some? ==> r.value in {InProgress, Completed, Cancelled, Booked}
  {
    match a
    case StartAppointment => Some(InProgress)
    case MarkComplete => Some(Completed)
    case CancelBooking => Some(Cancelled)
    case RestoreToBooked => Some(Booked)
    case _ => None
  }

  /** The statuses an admin can move booking `b` to from this page. */
  function StatusTargets(b: Booking): (r: set<string>)
    ensures r <= {InProgress, Completed, Cancelled, Booked}
    ensures b.status !in r
  {
    set a | a in OfferedActions(b) && StatusAfter(a).Some? :: StatusAfter(a).value
  }

  /** booked may start or be cancelled; in progress may complete or be
      cancelled; checked in may only be cancelled (there is no Start for it);
      cancelled may only be restored; completed has no status change. */
  lemma StatusTargetTable(b: Booking)
    ensures b.status == Booked ==> StatusTargets(b) == {InProgress, Cancelled}
    ensures b.status == InProgress ==> StatusTargets(b) == {Completed, Cancelled}
    ensures b.status == CheckedIn ==> StatusTargets(b) == {Cancelled}
    ensures b.status == Cancelled ==> StatusTargets(b) == {Booked}
    ensures b.status == Completed ==> StatusTargets(b) == {}
  {
    var acts := OfferedActions(b);
    if b.status == Booked {
      assert StartAppointment in acts && CancelBooking in acts;
      assert acts == {StartAppointment, Reschedule, CancelBooking};
    } else if b.status == InProgress {
      assert MarkComplete in acts && CancelBooking in acts;
      assert acts == {MarkComplete, Reschedule, CancelBooking};
    } else if b.status == CheckedIn {
      assert CancelBooking in acts;
      assert acts == {Reschedule, CancelBooking};
    } else if b.status == Cancelled {
      assert RestoreToBooked in acts;
      assert acts == {RestoreToBooked};
    } else if b.status == Completed {
      assert acts == {PaidInFullBadge} || acts == {RecordPayment};
    }
  }

  /** Cancel and Reschedule are offered exactly on bookings that are neither
      cancelled nor completed; Record Payment exactly on completed bookings
      not paid in full, and then the badge is not shown. */
  lemma ActionConditions(b: Booking)
    ensures CancelBooking in OfferedActions(b) <==> b.status != Cancelled && b.status != Completed
    ensures Reschedule in OfferedActions(b) <==> b.status != Cancelled && b.status != Completed
    ensures RecordPayment in OfferedActions(b) <==> b.status == Completed && !PaidInFull(b)
    ensures PaidInFullBadge in OfferedActions(b) <==> b.status == Completed && PaidInFull(b)
  {
  }

  /** The booking belongs in the list: on the selected day, or without a
      selected day on today or later. */
  predicate InView(b: Booking, selected: Option<int>, today: int) {
    if selected.Some? then b.day == selected.value else b.day >= today
  }

  /** The clock matters only without a selected date, and then a booking in
      view today was in view on every earlier day. */
  lemma InViewClock(b: Booking, selected: Option<int>, today: int, earlier: int)
    ensures selected.Some? ==> (InView(b, selected, today) <==> InView(b, selected, earlier))
    ensures selected.None? && earlier <= today && InView(b, selected, today) ==> InView(b, selected, earlier)
  {
  }

  function BookingTime(b: Booking): int {
    b.time
  }

  /** `selectedDateBookings`: the bookings in view, each as often as it was
      fetched; sorted by booking time when the times are datetimes, and left
      in the fetched order when they are bare clock times. */
  function BookingList(bookings: seq<Booking>, selected: Option<int>, today: int, format: TimeFormat): (r: seq<Booking>)
    ensures forall i :: 0 <= i < |r| ==> r[i] in bookings && InView(r[i], selected, today)
    ensures forall i :: 0 <= i < |bookings| && InView(bookings[i], selected, today) ==> bookings[i] in r
    ensures forall i :: 0 <= i < |bookings| ==>
              multiset(r)[bookings[i]] == if InView(bookings[i], selected, today) then multiset(bookings)[bookings[i]] else 0
    ensures multiset(r) <= multiset(bookings)
    ensures format == DateTimes ==> forall i, j :: 0 <= i < j < |r| ==> r[i].time <= r[j].time
    ensures format == ClockTimes ==> IsSubsequence(r, bookings)
  {
    var inView := (b: Booking) => InView(b, selected, today);
    var kept := Filter(bookings, inView);
    FilterCount(bookings, inView);
    if format == ClockTimes then
      FilterIsSubsequence(bookings, inView);
      kept
    else
      var r := SortByKey(kept, BookingTime);
      assert forall i :: 0 <= i < |r| ==> r[i] in kept by {
        forall i | 0 <= i < |r| ensures r[i] in kept {
          assert r[i] in multiset(r);
        }
      }
      assert forall x :: x in kept ==> x in r by {
        forall x | x in kept ensures x in r {
          assert x in multiset(kept);
        }
      }
      r
  }
}
