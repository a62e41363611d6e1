/** The customer's My Bookings page: bookings newest date first, split into
    upcoming and history on the lower-cased status, and the self check-in
    rule (today's booked or confirmed bookings, within 30 whole minutes of
    the appointment). */
module MyBookings {
  import opened Common
  import opened Seqs
  import opened Text

  /** Completed and cancelled bookings, in any letter case, are history. */
  predicate IsHistory(b: Booking) {
    var s := ToLower(b.status);
    s == Completed || s == Cancelled
  }

  /** Whether a booking is history does not depend on its status's letter
      case. */
  lemma HistoryIgnoresCase(b: Booking)
    ensures IsHistory(b) == IsHistory(b.(status := ToLower(b.status)))
  {
    ToLowerIdempotent(b.status);
  }

  predicate IsUpcoming(b: Booking) {
    !IsHistory(b)
  }

  function NegatedDay(b: Booking): int {
    -b.day
  }

  /** The bookings ordered by booking date, latest first. */
  function NewestFirst(bookings: seq<Booking>): (r: seq<Booking>)
    ensures multiset(r) == multiset(bookings)
    ensures SortedBy(r, NegatedDay)
    ensures forall i, j :: 0 <= i < j < |r| ==> r[i].day >= r[j].day
  {
    var r := SortByKey(bookings, NegatedDay);
    assert forall i, j :: 0 <= i < j < |r| ==> NegatedDay(r[i]) <= NegatedDay(r[j]);
    r
  }

  /** The upcoming list: every booking that is not history, each as often as
      it was fetched, latest date first. */
  function UpcomingBookings(bookings: seq<Booking>): (r: seq<Booking>)
    ensures forall i :: 0 <= i < |r| ==> IsUpcoming(r[i])
    ensures forall i :: 0 <= i < |bookings| ==>
              multiset(r)[bookings[i]] == if IsUpcoming(bookings[i]) then multiset(bookings)[bookings[i]] else 0
    ensures IsSubsequence(r, NewestFirst(bookings))
  {
    var sorted := NewestFirst(bookings);
    FilterCount(sorted, IsUpcoming);
    FilterIsSubsequence(sorted, IsUpcoming);
    SameCounts(bookings, sorted);
    Filter(sorted, IsUpcoming)
  }

  /** The history list: every completed or cancelled booking, each as often
      as it was fetched, latest date first. */
  function PastBookings(bookings: seq<Booking>): (r: seq<Booking>)
    ensures forall i :: 0 <= i < |r| ==> IsHistory(r[i])
    ensures forall i :: 0 <= i < |bookings| ==>
              multiset(r)[bookings[i]] == if IsHistory(bookings[i]) then multiset(bookings)[bookings[i]] else 0
    ensures IsSubsequence(r, NewestFirst(bookings))
  {
    var sorted := NewestFirst(bookings);
    FilterCount(sorted, IsHistory);
    FilterIsSubsequence(sorted, IsHistory);
    SameCounts(bookings, sorted);
    Filter(sorted, IsHistory)
  }

  /** A value of `s` is a value of any permutation `t` of it. */
  lemma SameCounts(s: seq<Booking>, t: seq<Booking>)
    requires multiset(s) == multiset(t)
    ensures forall i :: 0 <= i < |s| ==> s[i] in t
  {
    forall i | 0 <= i < |s| ensures s[i] in t {
      assert s[i] in multiset(t);
    }
  }

  /** The two lists hold every booking exactly once between them. */
  lemma ListsPartitionBookings(bookings: seq<Booking>)
    ensures multiset(UpcomingBookings(bookings)) + multiset(PastBookings(bookings)) == multiset(bookings)
    ensures |UpcomingBookings(bookings)| + |PastBookings(bookings)| == |bookings|
  {
    FilterSplit(NewestFirst(bookings), IsUpcoming, IsHistory);
  }

  /** No booking is listed both as upcoming and as history. */
  lemma ListsDisjoint(bookings: seq<Booking>)
    ensures forall i, j :: 0 <= i < |UpcomingBookings(bookings)| && 0 <= j < |PastBookings(bookings)|
              ==> UpcomingBookings(bookings)[i] != PastBookings(bookings)[j]
  {
  }

  /** Both lists keep the latest-first order. */
  lemma ListsNewestFirst(bookings: seq<Booking>)
    ensures forall i, j :: 0 <= i < j < |UpcomingBookings(bookings)|
              ==> UpcomingBookings(bookings)[i].day >= UpcomingBookings(bookings)[j].day
    ensures forall i, j :: 0 <= i < j < |PastBookings(bookings)|
              ==> PastBookings(bookings)[i].day >= PastBookings(bookings)[j].day
  {
    FilterNewestFirst(NewestFirst(bookings), IsUpcoming);
    FilterNewestFirst(NewestFirst(bookings), IsHistory);
  }

  lemma FilterNewestFirst(s: seq<Booking>, p: Booking -> bool)
    requires SortedBy(s, NegatedDay)
    ensures forall i, j :: 0 <= i < j < |Filter(s, p)| ==> Filter(s, p)[i].day >= Filter(s, p)[j].day
  {
    FilterKeepsSorted(s, p, NegatedDay);
    var r := Filter(s, p);
    assert forall i, j :: 0 <= i < j < |r| ==> NegatedDay(r[i]) <= NegatedDay(r[j]);
  }

  /** The Check In button: the booking is dated today and its status, in any
      letter case, is booked or confirmed. */
  predicate CanCheckIn(b: Booking, now: int)
    ensures CanCheckIn(b, now) ==> IsUpcoming(b) && DayOf(now) == b.day
  {
    var s := ToLower(b.status);
    DayOf(now) == b.day && (s == Booked || s == Confirmed)
  }

  /** Checked-in, completed and cancelled bookings never offer the button. */
  lemma NoCheckInAfterwards(b: Booking, now: int)
    requires ToLower(b.status) in {CheckedIn, InProgress, Completed, Cancelled}
    ensures !CanCheckIn(b, now)
  {
  }

  /** Case does not matter to the button. */
  lemma CheckInIgnoresCase(b: Booking, now: int)
    ensures CanCheckIn(b, now) == CanCheckIn(b.(status := ToLower(b.status)), now)
  {
    ToLowerIdempotent(b.status);
  }

  /** The appointment instant: the booking day at the booking time's hour and
      minute, seconds zero. */
  function AppointmentInstant(b: Booking): (t: int)
    ensures 0 <= b.time < MinutesPerDay ==> DayOf(t) == b.day
    ensures t % MsPerMinute == 0
  {
    if 0 <= b.time < MinutesPerDay then InstantAtDay(b.day, b.time); InstantAt(b.day, b.time)
    else InstantAt(b.day, b.time)
  }

  /** `differenceInMinutes(now, appointment)`: whole minutes, truncated. The
      same instant is zero minutes away, and a whole number of minutes later
      is exactly that many. */
  function MinutesFromAppointment(b: Booking, now: int): (m: int)
    ensures now == AppointmentInstant(b) ==> m == 0
    ensures forall k :: now == AppointmentInstant(b) + k * MsPerMinute ==> m == k
  {
    TruncDiv(now - AppointmentInstant(b), MsPerMinute)
  }

  datatype CheckInOutcome = CheckInRequested | WindowClosed

  /** Pressing Check In: refused when the appointment is more than 30 whole
      minutes away in either direction. With a bare clock time the minute
      difference is NaN, the window test is false, and check-in goes ahead
      at any moment. */
  function CheckInClick(b: Booking, now: int, format: TimeFormat): (o: CheckInOutcome)
    ensures format == DateTimes ==> (o == CheckInRequested <==> -30 <= MinutesFromAppointment(b, now) <= 30)
    ensures format == ClockTimes ==> o == CheckInRequested
  {
    if format == DateTimes && Abs(MinutesFromAppointment(b, now)) > 30 then WindowClosed else CheckInRequested
  }

  /** In milliseconds the window is open strictly less than 31 minutes either
      side of the appointment. */
  lemma CheckInWindow(b: Booking, now: int)
    ensures CheckInClick(b, now, DateTimes) == CheckInRequested
            <==> -31 * MsPerMinute < now - AppointmentInstant(b) < 31 * MsPerMinute
  {
    var x := now - AppointmentInstant(b);
    var q := MinutesFromAppointment(b, now);
    if x >= 0 {
      assert q * MsPerMinute <= x < q * MsPerMinute + MsPerMinute;
      if q <= 30 {
        assert x < 31 * MsPerMinute;
      } else {
        assert q * MsPerMinute >= 31 * MsPerMinute;
      }
    } else {
      assert q * MsPerMinute - MsPerMinute < x <= q * MsPerMinute;
      if q >= -30 {
        assert x > -31 * MsPerMinute;
      } else {
        assert q * MsPerMinute <= -31 * MsPerMinute;
      }
    }
  }

  /** Exactly 30 minutes early or late is still allowed, 31 is not. */
  lemma CheckInBoundaries(b: Booking)
    ensures CheckInClick(b, AppointmentInstant(b) - 30 * MsPerMinute, DateTimes) == CheckInRequested
    ensures CheckInClick(b, AppointmentInstant(b) + 30 * MsPerMinute, DateTimes) == CheckInRequested
    ensures CheckInClick(b, AppointmentInstant(b) - 31 * MsPerMinute, DateTimes) == WindowClosed
    ensures CheckInClick(b, AppointmentInstant(b) + 31 * MsPerMinute, DateTimes) == WindowClosed
  {
    CheckInWindow(b, AppointmentInstant(b) - 30 * MsPerMinute);
    CheckInWindow(b, AppointmentInstant(b) + 30 * MsPerMinute);
    CheckInWindow(b, AppointmentInstant(b) - 31 * MsPerMinute);
    CheckInWindow(b, AppointmentInstant(b) + 31 * MsPerMinute);
  }
}
