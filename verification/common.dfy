/** Shared vocabulary of the booking pages: optional values, numbers as the
    pages read them, JavaScript rounding, instants and the booking record. */
module Common {

  datatype Option<T> = None | Some(value: T)

  /** A field after `Number(x)` or `parseFloat(x)`: missing (`undefined` or
      `null`), a finite number, or `NaN`. Money is held in cents, percentages
      in whole percent. */
  datatype Numeric = Absent | Num(value: int) | NaN

  /** `Number(x || 0)` with `NaN` read as 0: what the pages use wherever an
      unparseable amount must count as nothing. */
  function OrZero(n: Numeric): (v: int)
    ensures n.Num? ==> v == n.value
    ensures !n.Num? ==> v == 0
  {
    match n
    case Num(x) => x
    case _ => 0
  }

  /** `Math.round(n / d)`: the nearest integer, halves rounded up. */
  function RoundHalfUp(n: int, d: int): (r: int)
    requires d > 0
    ensures 2 * d * r <= 2 * n + d < 2 * d * r + 2 * d
  {
    (2 * n + d) / (2 * d)
  }

  /** `Math.trunc(a / b)` for a positive divisor: rounds toward zero, unlike
      Dafny's `/`. */
  function TruncDiv(a: int, b: int): (q: int)
    requires b > 0
    ensures a >= 0 ==> 0 <= q * b <= a < q * b + b
    ensures a < 0 ==> q * b - b < a <= q * b <= 0
  {
    var k := Abs(a) / b;
    assert k >= 0;
    assert k * b <= Abs(a) < k * b + b;
    assert 0 <= k * b;
    if a >= 0 then k
    else
      assert (-k) * b == -(k * b);
      -k
  }

  lemma MulMonotone(c: int, a: int, b: int)
    requires c >= 0 && a <= b
    ensures c * a <= c * b
  {
    assert c * b - c * a == c * (b - a);
  }

  lemma PositiveFactor(x: int, k: int)
    requires k > 0 && x * k > 0
    ensures x > 0
  {
  }

  /** Rounding preserves order. */
  lemma RoundMonotone(m: int, n: int, d: int)
    requires d > 0 && m <= n
    ensures RoundHalfUp(m, d) <= RoundHalfUp(n, d)
  {
    var r1 := RoundHalfUp(m, d);
    var r2 := RoundHalfUp(n, d);
    assert (r2 + 1 - r1) * (2 * d) == 2 * d * r2 + 2 * d - 2 * d * r1;
    PositiveFactor(r2 + 1 - r1, 2 * d);
  }

  function Abs(x: int): int {
    if x < 0 then -x else x
  }

  const MsPerMinute: int := 60_000
  const MinutesPerDay: int := 1_440
  const MsPerDay: int := 86_400_000

  /** The local calendar day (days since 1970-01-01) an instant in
      milliseconds falls on. */
  function DayOf(now: int): (d: int)
    ensures d * MsPerDay <= now < d * MsPerDay + MsPerDay
  {
    now / MsPerDay
  }

  /** The instant of minute `minute` (of the day) on day `day`, seconds and
      milliseconds zero. */
  function InstantAt(day: int, minute: int): int {
    day * MsPerDay + minute * MsPerMinute
  }

  lemma InstantAtDay(day: int, minute: int)
    requires 0 <= minute < MinutesPerDay
    ensures DayOf(InstantAt(day, minute)) == day
  {
  }

  /** Booking statuses as the server spells them. */
  const Booked: string := "booked"
  const Confirmed: string := "confirmed"
  const CheckedIn: string := "checked_in"
  const InProgress: string := "in_progress"
  const Completed: string := "completed"
  const Cancelled: string := "cancelled"

  /** A payment recorded against a booking. The source orders payments by
      comparing their string ids; `id` is the rank of that id in the order. */
  datatype Payment = Payment(id: int, amount: int)

  /** A booking as the pages receive it: `day` is the booking date, `time` the
      minute of the day of the booking time, `price` the captured price in
      cents (surcharge and promotion included). */
  datatype Booking = Booking(
    id: string,
    day: int,
    time: int,
    status: string,
    price: int,
    payments: seq<Payment>)

  /** How a booking spells its time. A datetime string parses to a date whose
      hours and minutes are the booking's minute of the day. A bare "HH:MM"
      time parses to an invalid date: every quantity computed from it is NaN,
      so a sort comparator yields NaN (read as "equal") and a comparison such
      as `Math.abs(x) > 30` is false. */
  datatype TimeFormat = DateTimes | ClockTimes
}
