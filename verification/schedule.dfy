/** The stylist's weekly schedule: the Monday-to-Sunday week shown, the rows
    of hours derived from the salon's business hours, and which booking fills
    each (day, hour) cell. */
module Schedule {
  import opened Common
  import opened Seqs
  import Text

  /** One weekday of the salon's business hours, as the settings hold it. */
  datatype DayHours = DayHours(isOpen: bool, start: string, end: string)

  // ---------------------------------------------------------------------
  // parseInt
  // ---------------------------------------------------------------------

  /** The white space `parseInt` skips before the number. Of the Unicode
      space separators only the no-break space is recognised here. */
  predicate IsSpace(c: char) {
    c == ' ' || c == '\t' || c == '\n' || c == '\r' || c == '\U{B}' || c == '\U{C}'
    || c == '\U{A0}' || c == '\U{FEFF}'
  }

  function TrimStart(s: string): (r: string)
    ensures |r| <= |s| && r == s[|s| - |r|..]
    ensures |r| > 0 ==> !IsSpace(r[0])
    ensures forall i :: 0 <= i < |s| - |r| ==> IsSpace(s[i])
  {
    if |s| > 0 && IsSpace(s[0]) then
      var r := TrimStart(s[1..]);
      assert forall i :: 1 <= i < |s| - |r| ==> s[i] == s[1..][i - 1];
      r
    else s
  }

  /** The value of `c` as a digit in `radix` (10 or 16), if it is one. */
  function DigitIn(c: char, radix: nat): Option<nat> {
    if '0' <= c <= '9' && (c as int) - ('0' as int) < radix then Some((c as int) - ('0' as int))
    else if radix == 16 && 'a' <= c <= 'f' then Some((c as int) - ('a' as int) + 10)
    else if radix == 16 && 'A' <= c <= 'F' then Some((c as int) - ('A' as int) + 10)
    else None
  }

  /** The length of the longest prefix of `s` made of digits in `radix`. */
  function DigitRun(s: string, radix: nat): (n: nat)
    ensures n <= |s|
    ensures forall i :: 0 <= i < n ==> DigitIn(s[i], radix).Some?
    ensures n < |s| ==> DigitIn(s[n], radix).None?
  {
    if |s| == 0 || DigitIn(s[0], radix).None? then 0
    else
      var n := DigitRun(s[1..], radix);
      assert forall i :: 1 <= i < n + 1 ==> s[i] == s[1..][i - 1];
      n + 1
  }

  /** The number a string of digits in `radix` denotes. */
  function DigitsValue(s: string, radix: nat): nat
    requires forall i :: 0 <= i < |s| ==> DigitIn(s[i], radix).Some?
  {
    if |s| == 0 then 0
    else DigitsValue(s[..|s| - 1], radix) * radix + DigitIn(s[|s| - 1], radix).value
  }

  /** `parseInt(s)`: skip leading white space, read an optional sign, then
      the number; `None` stands for `NaN`. */
  function ParseInt(s: string): (r: Option<int>)
    ensures forall k :: !HexPrefixed(s) && DecimalPrefix(s, k) ==> r == Some(DecimalPrefixValue(s, k))
    ensures forall k :: |s| > 0 && s[0] == '-' && !HexPrefixed(s[1..]) && DecimalPrefix(s[1..], k) ==>
              r == Some(-(DecimalPrefixValue(s[1..], k) as int))
  {
    var t := TrimStart(s);
    var negative := |t| > 0 && t[0] == '-';
    var u := if |t| > 0 && (t[0] == '-' || t[0] == '+') then t[1..] else t;
    match ParseUnsigned(u)
    case None => None
    case Some(v) =>
      var x: int := v;
      Some(if negative then -x else x)
  }

  /** The number after the sign: a `0x` / `0X` prefix switches to base 16,
      then the longest run of digits is read; `None` when there is no digit. */
  function ParseUnsigned(u: string): (r: Option<nat>)
    ensures r.None? <==> |Unprefixed(u)| == 0 || DigitIn(Unprefixed(u)[0], Radix(u)).None?
    ensures forall k :: !HexPrefixed(u) && DecimalPrefix(u, k) ==> r == Some(DecimalPrefixValue(u, k))
  {
    var digits := Unprefixed(u);
    var radix := Radix(u);
    var n := DigitRun(digits, radix);
    DecimalReading(u);
    if n == 0 then None else Some(DigitsValue(digits[..n], radix))
  }

  /** `u` starts with `k > 0` decimal digits and no further digit follows. */
  predicate DecimalPrefix(u: string, k: int) {
    && 0 < k <= |u|
    && (forall i :: 0 <= i < k ==> Text.IsDigit(u[i]))
    && (k == |u| || !Text.IsDigit(u[k]))
  }

  /** The number the first `k` characters of `u` write in decimal. */
  function DecimalPrefixValue(u: string, k: int): nat
    requires DecimalPrefix(u, k)
  {
    Text.ParseDecimal(u[..k])
  }

  /** In base 10 the digit run is the decimal prefix, and its value is what
      `Text.ParseDecimal` reads. */
  lemma DecimalReading(u: string)
    ensures forall k :: DecimalPrefix(u, k) ==>
              DigitRun(u, 10) == k && DigitsValue(u[..k], 10) == Text.ParseDecimal(u[..k])
  {
    forall k | DecimalPrefix(u, k)
      ensures DigitRun(u, 10) == k && DigitsValue(u[..k], 10) == Text.ParseDecimal(u[..k])
    {
      DigitRunStops(u[..k], u[k..]);
      assert u[..k] + u[k..] == u;
      DecimalDigitsValue(u[..k]);
    }
  }

  predicate HexPrefixed(u: string) {
    |u| >= 2 && u[0] == '0' && (u[1] == 'x' || u[1] == 'X')
  }

  function Radix(u: string): nat {
    if HexPrefixed(u) then 16 else 10
  }

  function Unprefixed(u: string): string {
    if HexPrefixed(u) then u[2..] else u
  }

  /** Read in base 10, the digits are those `Text.Decimal` writes. */
  lemma {:induction false} DecimalDigitsValue(s: string)
    requires forall i :: 0 <= i < |s| ==> Text.IsDigit(s[i])
    ensures forall i :: 0 <= i < |s| ==> DigitIn(s[i], 10).Some?
    ensures DigitsValue(s, 10) == Text.ParseDecimal(s)
  {
    if |s| > 0 {
      DecimalDigitsValue(s[..|s| - 1]);
    }
  }

  /** The run of decimal digits ends where the digits end. */
  lemma {:induction false} DigitRunStops(d: string, rest: string)
    requires forall i :: 0 <= i < |d| ==> Text.IsDigit(d[i])
    requires |rest| > 0 ==> !Text.IsDigit(rest[0])
    ensures DigitRun(d + rest, 10) == |d|
  {
    if |d| > 0 {
      DigitRunStops(d[1..], rest);
      assert (d + rest)[1..] == d[1..] + rest;
    } else {
      assert d + rest == rest;
    }
  }

  /** A string starting with a digit has neither white space nor a sign to
      skip. */
  lemma ParseIntFromDigit(s: string)
    requires |s| > 0 && Text.IsDigit(s[0])
    ensures ParseInt(s) == match ParseUnsigned(s) case None => None case Some(v) => Some(v)
  {
    TrimStartDigit(s);
  }

  lemma TrimStartDigit(s: string)
    requires |s| > 0 && Text.IsDigit(s[0])
    ensures TrimStart(s) == s
  {
  }

  /** The unsigned part reads back any number written in decimal. */
  lemma ParseUnsignedDecimal(n: nat, rest: string)
    requires |rest| > 0 ==> !Text.IsDigit(rest[0]) && rest[0] != 'x' && rest[0] != 'X'
    ensures ParseUnsigned(Text.Decimal(n) + rest) == Some(n)
  {
    var d := Text.Decimal(n);
    var s := d + rest;
    assert !HexPrefixed(s) by {
      if |s| >= 2 && s[0] == '0' {
        assert s[0] == d[0];
        assert |d| == 1;
        assert s[1] == rest[0];
      }
    }
    DigitRunStops(d, rest);
    assert s[..|d|] == d;
    DecimalDigitsValue(d);
    Text.DecimalRoundTrip(n);
  }

  /** `parseInt` reads back any number written in decimal, and stops at the
      first character that is not a digit. */
  lemma ParseIntDecimal(n: nat, rest: string)
    requires |rest| > 0 ==> !Text.IsDigit(rest[0]) && rest[0] != 'x' && rest[0] != 'X'
    ensures ParseInt(Text.Decimal(n) + rest) == Some(n)
  {
    var s := Text.Decimal(n) + rest;
    assert Text.IsDigit(s[0]) by { assert s[0] == Text.Decimal(n)[0]; }
    ParseIntFromDigit(s);
    ParseUnsignedDecimal(n, rest);
  }

  /** The hour field of a "HH:MM" setting: `parseInt(s.split(':')[0])`. */
  function HourField(s: string): (r: Option<int>)
    ensures forall k :: HourDigits(s, k) ==> r == Some(Text.ParseDecimal(s[..k]))
  {
    HourFieldDigits(s);
    ParseInt(BeforeColon(s))
  }

  /** `s` starts with `k > 0` decimal digits, followed by a colon or nothing. */
  predicate HourDigits(s: string, k: int) {
    && 0 < k <= |s|
    && (forall i :: 0 <= i < k ==> Text.IsDigit(s[i]))
    && (k == |s| || s[k] == ':')
  }

  lemma HourFieldDigits(s: string)
    ensures forall k :: HourDigits(s, k) ==> ParseInt(BeforeColon(s)) == Some(Text.ParseDecimal(s[..k]))
  {
    forall k | HourDigits(s, k) ensures ParseInt(BeforeColon(s)) == Some(Text.ParseDecimal(s[..k])) {
      HourFieldAt(s, k);
    }
  }

  lemma HourFieldAt(s: string, k: int)
    requires HourDigits(s, k)
    ensures ParseInt(BeforeColon(s)) == Some(Text.ParseDecimal(s[..k]))
  {
    var p := s[..k];
    BeforeColonOfDigits(s, k);
    ParseIntOfDigits(p);
  }

  /** The hour digits are all that precedes the colon. */
  lemma BeforeColonOfDigits(s: string, k: int)
    requires HourDigits(s, k)
    ensures BeforeColon(s) == s[..k]
  {
    var p := s[..k];
    assert forall i :: 0 <= i < |p| ==> p[i] != ':';
    if k < |s| {
      BeforeColonPrefix(p, s[k + 1..]);
      assert p + ":" + s[k + 1..] == s;
    } else {
      assert p == s;
      BeforeColonAll(s);
    }
  }

  /** A string of decimal digits reads as its decimal value. */
  lemma ParseIntOfDigits(p: string)
    requires |p| > 0 && forall i :: 0 <= i < |p| ==> Text.IsDigit(p[i])
    ensures ParseInt(p) == Some(Text.ParseDecimal(p))
  {
    assert !HexPrefixed(p);
    assert DecimalPrefix(p, |p|);
    assert p[..|p|] == p;
  }

  lemma BeforeColonAll(s: string)
    requires forall i :: 0 <= i < |s| ==> s[i] != ':'
    ensures BeforeColon(s) == s
  {
    var r := BeforeColon(s);
    if |r| < |s| {
      assert false;
    }
  }

  /** `s.split(':')[0]`: the text before the first colon, or all of it. */
  function BeforeColon(s: string): (r: string)
    ensures |r| <= |s| && r == s[..|r|]
    ensures forall i :: 0 <= i < |r| ==> r[i] != ':'
    ensures |r| < |s| ==> s[|r|] == ':'
  {
    if |s| == 0 || s[0] == ':' then ""
    else
      var r := BeforeColon(s[1..]);
      assert forall i :: 1 <= i < |r| + 1 ==> s[i] == s[1..][i - 1];
      [s[0]] + r
  }

  /** Splitting at the first colon gives back what precedes it. */
  lemma {:induction false} BeforeColonPrefix(p: string, rest: string)
    requires forall i :: 0 <= i < |p| ==> p[i] != ':'
    ensures BeforeColon(p + ":" + rest) == p
  {
    if |p| > 0 {
      BeforeColonPrefix(p[1..], rest);
      assert (p + ":" + rest)[1..] == p[1..] + ":" + rest;
    } else {
      assert (p + ":" + rest)[0] == ':';
    }
  }

  /** A setting written as a decimal hour, a colon and anything after it reads
      back as that hour. */
  lemma HourFieldOfSetting(h: nat, minutes: string)
    ensures HourField(Text.Decimal(h) + ":" + minutes) == Some(h)
  {
    BeforeColonPrefix(Text.Decimal(h), minutes);
    ParseIntDecimal(h, "");
    assert Text.Decimal(h) + "" == Text.Decimal(h);
  }

  /** A leading zero is read as base 10: "09:00" is hour 9. */
  lemma ZeroNineHour()
    ensures HourField("09:00") == Some(9)
  {
    BeforeColonPrefix("09", "00");
    assert "09" + ":" + "00" == "09:00";
    assert TrimStart("09") == "09";
    assert DigitRun("", 10) == 0;
    assert DigitRun("9", 10) == 1;
    assert DigitRun("09", 10) == 2;
    assert "09"[..2] == "09";
    assert DigitsValue("0", 10) == 0;
    assert DigitsValue("09", 10) == 9;
  }

  // ---------------------------------------------------------------------
  // The hour rows
  // ---------------------------------------------------------------------

  /** A day of business hours with its two hour fields read. */
  datatype ParsedDay = ParsedDay(isOpen: bool, opening: Option<int>, closing: Option<int>)

  function ParseDay(d: DayHours): ParsedDay {
    ParsedDay(d.isOpen, HourField(d.start), HourField(d.end))
  }

  function ParseDays(days: seq<DayHours>): (ps: seq<ParsedDay>)
    ensures |ps| == |days|
    ensures forall i :: 0 <= i < |days| ==> ps[i] == ParseDay(days[i])
  {
    seq(|days|, i requires 0 <= i < |days| => ParseDay(days[i]))
  }

  /** An open day whose opening hour reads as `h`. */
  predicate OpensAt(d: ParsedDay, h: int) {
    d.isOpen && d.opening == Some(h)
  }

  /** An open day whose closing hour reads as `h`. */
  predicate ClosesAt(d: ParsedDay, h: int) {
    d.isOpen && d.closing == Some(h)
  }

  predicate AnyOpen(days: seq<ParsedDay>) {
    exists i :: 0 <= i < |days| && days[i].isOpen
  }

  /** `minH` after the given days: 24 lowered to every smaller opening hour
      that reads as a number. */
  function MinOpening(days: seq<ParsedDay>): (m: int)
    ensures m <= 24
    ensures forall i :: 0 <= i < |days| && days[i].isOpen && days[i].opening.Some? ==> m <= days[i].opening.value
  {
    if |days| == 0 then 24
    else
      var m := MinOpening(days[..|days| - 1]);
      var d := days[|days| - 1];
      if d.isOpen && d.opening.Some? && d.opening.value < m then d.opening.value else m
  }

  /** `maxH` after the given days: 0 raised to every larger closing hour that
      reads as a number. */
  function MaxClosing(days: seq<ParsedDay>): (m: int)
    ensures m >= 0
    ensures forall i :: 0 <= i < |days| && days[i].isOpen && days[i].closing.Some? ==> days[i].closing.value <= m
  {
    if |days| == 0 then 0
    else
      var m := MaxClosing(days[..|days| - 1]);
      var d := days[|days| - 1];
      if d.isOpen && d.closing.Some? && d.closing.value > m then d.closing.value else m
  }

  /** `MinOpening` is the least of 24 and the opening hours. */
  lemma {:induction false} MinOpeningIsLeast(days: seq<ParsedDay>)
    ensures MinOpening(days) <= 24
    ensures forall i, h :: 0 <= i < |days| && OpensAt(days[i], h) ==> MinOpening(days) <= h
    ensures MinOpening(days) == 24 || exists i :: 0 <= i < |days| && OpensAt(days[i], MinOpening(days))
  {
    if |days| > 0 {
      var init := days[..|days| - 1];
      MinOpeningIsLeast(init);
      assert forall i :: 0 <= i < |init| ==> init[i] == days[i];
      if MinOpening(days) != MinOpening(init) {
        assert OpensAt(days[|days| - 1], MinOpening(days));
      } else if MinOpening(days) != 24 {
        var i :| 0 <= i < |init| && OpensAt(init[i], MinOpening(init));
        assert OpensAt(days[i], MinOpening(days));
      }
    }
  }

  /** `MaxClosing` is the greatest of 0 and the closing hours. */
  lemma {:induction false} MaxClosingIsGreatest(days: seq<ParsedDay>)
    ensures MaxClosing(days) >= 0
    ensures forall i, h :: 0 <= i < |days| && ClosesAt(days[i], h) ==> h <= MaxClosing(days)
    ensures MaxClosing(days) == 0 || exists i :: 0 <= i < |days| && ClosesAt(days[i], MaxClosing(days))
  {
    if |days| > 0 {
      var init := days[..|days| - 1];
      MaxClosingIsGreatest(init);
      assert forall i :: 0 <= i < |init| ==> init[i] == days[i];
      if MaxClosing(days) != MaxClosing(init) {
        assert ClosesAt(days[|days| - 1], MaxClosing(days));
      } else if MaxClosing(days) != 0 {
        var i :| 0 <= i < |init| && ClosesAt(init[i], MaxClosing(init));
        assert ClosesAt(days[i], MaxClosing(days));
      }
    }
  }

  /** Days drawn from among other days give no earlier first row and no
      later last row. */
  lemma HoursOfFewerDays(a: seq<ParsedDay>, b: seq<ParsedDay>)
    requires forall i :: 0 <= i < |a| ==> a[i] in b
    ensures MinOpening(b) <= MinOpening(a)
    ensures MaxClosing(a) <= MaxClosing(b)
  {
    MinOpeningIsLeast(a);
    MinOpeningIsLeast(b);
    MaxClosingIsGreatest(a);
    MaxClosingIsGreatest(b);
    if MinOpening(a) != 24 {
      var i :| 0 <= i < |a| && OpensAt(a[i], MinOpening(a));
      var j :| 0 <= j < |b| && b[j] == a[i];
      assert OpensAt(b[j], MinOpening(a));
    }
    if MaxClosing(a) != 0 {
      var i :| 0 <= i < |a| && ClosesAt(a[i], MaxClosing(a));
      var j :| 0 <= j < |b| && b[j] == a[i];
      assert ClosesAt(b[j], MaxClosing(a));
    }
  }

  /** The order in which the settings list the days does not matter. */
  lemma HoursIgnoreDayOrder(a: seq<ParsedDay>, b: seq<ParsedDay>)
    requires multiset(a) == multiset(b)
    ensures MinOpening(a) == MinOpening(b)
    ensures MaxClosing(a) == MaxClosing(b)
  {
    forall i | 0 <= i < |a| ensures a[i] in b {
      assert a[i] in multiset(a);
    }
    forall i | 0 <= i < |b| ensures b[i] in a {
      assert b[i] in multiset(b);
    }
    HoursOfFewerDays(a, b);
    HoursOfFewerDays(b, a);
  }

  /** The first and last hour rows. With no business hours, or no open day,
      10 to 16; otherwise from the earliest opening hour to one before the
      latest closing hour, and at least the one opening row. */
  method HourRange(businessHours: Option<seq<DayHours>>) returns (startHour: int, endHour: int)
    ensures startHour <= endHour
    ensures businessHours.None? || !AnyOpen(ParseDays(businessHours.value)) ==> startHour == 10 && endHour == 16
    ensures businessHours.Some? && AnyOpen(ParseDays(businessHours.value)) ==>
              var ps := ParseDays(businessHours.value);
              startHour == MinOpening(ps)
              && endHour == (if MaxClosing(ps) > startHour then MaxClosing(ps) - 1 else startHour)
  {
    startHour := 10;
    endHour := 16;
    if businessHours.Some? {
      var days := businessHours.value;
      ghost var ps := ParseDays(days);
      var minH := 24;
      var maxH := 0;
      var hasOpenDays := false;
      var i := 0;
      while i < |days|
        invariant 0 <= i <= |days|
        invariant minH == MinOpening(ps[..i])
        invariant maxH == MaxClosing(ps[..i])
        invariant hasOpenDays <==> AnyOpen(ps[..i])
      {
        PrefixStep(ps, i);
        var day := ParseDay(days[i]);
        if day.isOpen {
          hasOpenDays := true;
          if day.opening.Some? && day.opening.value < minH { minH := day.opening.value; }
          if day.closing.Some? && day.closing.value > maxH { maxH := day.closing.value; }
        }
        i := i + 1;
      }
      assert ps[..i] == ps;
      if hasOpenDays {
        startHour := minH;
        endHour := if maxH > startHour then maxH - 1 else startHour;
        if endHour < startHour { endHour := startHour; }
      }
    }
  }

  /** One more day of the loop: how `minH`, `maxH` and `hasOpenDays` move. */
  lemma PrefixStep(ps: seq<ParsedDay>, i: int)
    requires 0 <= i < |ps|
    ensures MinOpening(ps[..i + 1]) ==
              if ps[i].isOpen && ps[i].opening.Some? && ps[i].opening.value < MinOpening(ps[..i])
              then ps[i].opening.value else MinOpening(ps[..i])
    ensures MaxClosing(ps[..i + 1]) ==
              if ps[i].isOpen && ps[i].closing.Some? && ps[i].closing.value > MaxClosing(ps[..i])
              then ps[i].closing.value else MaxClosing(ps[..i])
    ensures AnyOpen(ps[..i + 1]) <==> AnyOpen(ps[..i]) || ps[i].isOpen
  {
    var pre := ps[..i + 1];
    assert pre[..i] == ps[..i];
    assert pre[i] == ps[i];
    if AnyOpen(pre) && !ps[i].isOpen {
      var j :| 0 <= j < i + 1 && pre[j].isOpen;
      assert ps[..i][j] == pre[j];
    }
    if AnyOpen(ps[..i]) {
      var j :| 0 <= j < i && ps[..i][j].isOpen;
      assert pre[j] == ps[..i][j];
    }
  }

  /** With some open day, no opening hour that reads as a number lies before
      the first row, the first row is such an hour (or 24 when none reads),
      and no closing hour lies more than one past the last row. */
  lemma HourRangeCoversOpenDays(days: seq<ParsedDay>, startHour: int, endHour: int)
    requires AnyOpen(days)
    requires startHour == MinOpening(days)
    requires endHour == (if MaxClosing(days) > startHour then MaxClosing(days) - 1 else startHour)
    ensures forall i, h :: 0 <= i < |days| && OpensAt(days[i], h) ==> startHour <= h
    ensures forall i, h :: 0 <= i < |days| && ClosesAt(days[i], h) ==> h <= endHour + 1
    ensures startHour == 24 || exists i :: 0 <= i < |days| && OpensAt(days[i], startHour)
  {
    MinOpeningIsLeast(days);
    MaxClosingIsGreatest(days);
  }

  /** A closed day, or an open one whose hours do not read as numbers,
      changes nothing once some other day is open. */
  lemma IgnoredDays(days: seq<ParsedDay>, d: ParsedDay)
    requires !d.isOpen || (d.opening.None? && d.closing.None?)
    requires d.isOpen ==> AnyOpen(days)
    ensures MinOpening(days + [d]) == MinOpening(days)
    ensures MaxClosing(days + [d]) == MaxClosing(days)
    ensures AnyOpen(days + [d]) == AnyOpen(days)
  {
    var e := days + [d];
    assert e[..|e| - 1] == days;
    if AnyOpen(days) {
      var j :| 0 <= j < |days| && days[j].isOpen;
      assert e[j] == days[j];
    }
    if AnyOpen(e) {
      var j :| 0 <= j < |e| && e[j].isOpen;
      if j < |days| { assert days[j] == e[j]; }
    }
  }

  /** The hour rows: every hour from the first to the last. */
  function HourRows(startHour: int, endHour: int): (rows: seq<int>)
    requires startHour <= endHour
    ensures |rows| == endHour - startHour + 1
    ensures forall i :: 0 <= i < |rows| ==> rows[i] == startHour + i
  {
    seq(endHour - startHour + 1, i => startHour + i)
  }

  /** The rows are exactly the hours between the first and the last. */
  lemma HourRowsExact(startHour: int, endHour: int, h: int)
    requires startHour <= endHour
    ensures h in HourRows(startHour, endHour) <==> startHour <= h <= endHour
  {
    if startHour <= h <= endHour {
      assert HourRows(startHour, endHour)[h - startHour] == h;
    }
  }

  // ---------------------------------------------------------------------
  // The week
  // ---------------------------------------------------------------------

  /** The weekday of day `d` counted from Monday = 0; day 0, 1 January 1970,
      was a Thursday. */
  function Weekday(d: int): (w: int)
    ensures 0 <= w < 7
  {
    (d + 3) % 7
  }

  /** `startOfWeek(d, { weekStartsOn: 1 })`: the Monday on or before `d`. */
  function WeekStart(d: int): (m: int)
    ensures Weekday(m) == 0
    ensures m <= d < m + 7
  {
    d - Weekday(d)
  }

  /** The Monday of a day's week is the only Monday at most six days before. */
  lemma WeekStartUnique(d: int, m: int)
    requires Weekday(m) == 0 && m <= d < m + 7
    ensures m == WeekStart(d)
  {
    var w := WeekStart(d);
    var a := (m + 3) / 7;
    var b := (w + 3) / 7;
    assert m + 3 == 7 * a;
    assert w + 3 == 7 * b;
    assert -7 < 7 * (a - b) < 7;
  }

  /** The seven columns, Monday to Sunday. */
  function WeekDays(d: int): (days: seq<int>)
    ensures |days| == 7
    ensures forall i :: 0 <= i < 7 ==> Weekday(days[i]) == i
    ensures d in days
    ensures forall i :: 0 <= i < 6 ==> days[i + 1] == days[i] + 1
  {
    var m := WeekStart(d);
    var days := seq(7, i => m + i);
    assert days[d - m] == d;
    days
  }

  /** Every day of a week shows the same columns. */
  lemma SameWeekSameColumns(d: int, k: int)
    requires 0 <= k < 7
    ensures WeekDays(WeekStart(d) + k) == WeekDays(d)
  {
    WeekStartUnique(WeekStart(d) + k, WeekStart(d));
  }

  /** Next week and previous week move the columns by exactly seven days. */
  lemma WeekNavigation(d: int)
    ensures WeekStart(d + 7) == WeekStart(d) + 7
    ensures WeekStart(d - 7) == WeekStart(d) - 7
  {
    WeekStartUnique(d + 7, WeekStart(d) + 7);
    WeekStartUnique(d - 7, WeekStart(d) - 7);
  }

  // ---------------------------------------------------------------------
  // The cells
  // ---------------------------------------------------------------------

  /** Booking `b` fills the cell of day `day` and hour `hour`: its time is a
      valid date, it is on that day with its time within that hour, and it is
      not cancelled (compared case-sensitively). A bare "HH:MM" time parses
      to an invalid date, so such a booking fills no cell. */
  predicate FillsCell(b: Booking, day: int, hour: int, format: TimeFormat)
    ensures FillsCell(b, day, hour, format) ==> format == DateTimes
    ensures FillsCell(b, day, hour, format) && 0 <= b.time ==>
              InstantAt(day, hour * 60) <= InstantAt(b.day, b.time) < InstantAt(day, hour * 60 + 60)
  {
    format == DateTimes && b.day == day && b.time / 60 == hour && b.status != Cancelled
  }

  /** `getBookingForSlot`: the first booking in list order that fills the
      cell. */
  function BookingForCell(bookings: seq<Booking>, day: int, hour: int, format: TimeFormat): (r: Option<Booking>)
    ensures r.Some? ==> r.value in bookings && FillsCell(r.value, day, hour, format)
    ensures r.None? <==> forall i :: 0 <= i < |bookings| ==> !FillsCell(bookings[i], day, hour, format)
    ensures r.Some? ==> exists i :: 0 <= i < |bookings| && bookings[i] == r.value
                                    && forall j :: 0 <= j < i ==> !FillsCell(bookings[j], day, hour, format)
    ensures format == ClockTimes ==> r.None?
  {
    Find(bookings, (b: Booking) => FillsCell(b, day, hour, format))
  }

  /** A booking with a datetime fills the cell of its own day and of the
      hour its time falls in, and of no other cell. */
  lemma BookingCell(b: Booking, day: int, hour: int)
    requires 0 <= b.time < Common.MinutesPerDay && b.status != Cancelled
    ensures FillsCell(b, day, hour, DateTimes) <==> day == b.day && hour * 60 <= b.time < hour * 60 + 60
  {
  }

  /** A cancelled booking never shows, while one spelled "Cancelled" does. */
  lemma CancelledHidden(b: Booking)
    requires 0 <= b.time
    ensures BookingForCell([b.(status := Cancelled)], b.day, b.time / 60, DateTimes).None?
    ensures BookingForCell([b.(status := "Cancelled")], b.day, b.time / 60, DateTimes) == Some(b.(status := "Cancelled"))
  {
    assert "Cancelled" != Cancelled by { assert "Cancelled"[0] != Cancelled[0]; }
    assert FillsCell(b.(status := "Cancelled"), b.day, b.time / 60, DateTimes);
  }

  /** The same booking shows in its cell when its time is a datetime and in
      no cell when it is a bare clock time. */
  lemma ClockTimeHidden(b: Booking, hour: int)
    requires 0 <= b.time && b.status != Cancelled
    ensures BookingForCell([b], b.day, b.time / 60, DateTimes) == Some(b)
    ensures BookingForCell([b], b.day, hour, ClockTimes).None?
  {
    assert FillsCell(b, b.day, b.time / 60, DateTimes);
  }

  /** A cell is shaded as past when its day is before today, or it is today
      and its hour is before the current hour. */
  predicate IsPastCell(day: int, hour: int, now: int)
    ensures 0 <= hour < 24 ==> (IsPastCell(day, hour, now) <==> InstantAt(day, hour * 60 + 60) <= now)
  {
    var today := DayOf(now);
    day < today || (day == today && hour < (now - today * MsPerDay) / (60 * MsPerMinute))
  }

  /** Every cell before a past cell is past too. */
  lemma PastCellsAreEarlier(day: int, hour: int, day': int, hour': int, now: int)
    requires IsPastCell(day, hour, now)
    requires day' < day || (day' == day && hour' <= hour)
    ensures IsPastCell(day', hour', now)
  {
  }
}
