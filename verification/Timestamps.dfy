/** The two orders on last_modified times.  Requests compare them as strings; the syncs compare
    the epochs that parseISO8601ToTimestamp gives.  Times are date-times in the extended form
    of section 5.6 of RFC 3339 without fractions of a second. */
module Timestamps {
  import opened Options
  import opened ConfigSync

  // ----- The calendar -----------------------------------------------------------------

  predicate Leap(year: int) {
    year % 4 == 0 && (year % 100 != 0 || year % 400 == 0)
  }

  function DaysInMonth(year: int, month: int): int {
    if month == 2 then (if Leap(year) then 29 else 28)
    else if month == 4 || month == 6 || month == 9 || month == 11 then 30 else 31
  }

  function DaysBeforeMonth(year: int, month: int): int
    decreases month
  {
    if month <= 1 then 0 else DaysBeforeMonth(year, month - 1) + DaysInMonth(year, month - 1)
  }

  function DaysBeforeYear(year: int): int
    decreases year
  {
    if year <= 1 then 0 else DaysBeforeYear(year - 1) + DaysBeforeMonth(year - 1, 13)
  }

  datatype Fields = Fields(year: int, month: int, day: int, hour: int, minute: int, second: int)

  predicate Valid(f: Fields) {
    && 1 <= f.year && 1 <= f.month <= 12 && 1 <= f.day <= DaysInMonth(f.year, f.month)
    && 0 <= f.hour < 24 && 0 <= f.minute < 60 && 0 <= f.second < 60
  }

  function Days(f: Fields): int {
    DaysBeforeYear(f.year) + DaysBeforeMonth(f.year, f.month) + f.day - 1
  }

  /** Seconds since 1970-01-01T00:00:00 of the time read off a clock. */
  function Seconds(f: Fields): int {
    (Days(f) - DaysBeforeYear(1970)) * 86400 + f.hour * 3600 + f.minute * 60 + f.second
  }

  // ----- Reading ------------------------------------------------------------------------

  predicate Digits(s: string) {
    forall i :: 0 <= i < |s| ==> '0' <= s[i] <= '9'
  }

  function Number(s: string): int {
    if s == "" then 0 else 10 * Number(s[..|s| - 1]) + (s[|s| - 1] as int - '0' as int)
  }

  predicate Shaped(s: string) {
    && |s| >= 19
    && Digits(s[0..4]) && Digits(s[5..7]) && Digits(s[8..10])
    && Digits(s[11..13]) && Digits(s[14..16]) && Digits(s[17..19])
    && s[4] == '-' && s[7] == '-' && s[10] == 'T' && s[13] == ':' && s[16] == ':'
  }

  function Read(s: string): Fields
    requires Shaped(s)
  {
    Fields(Number(s[0..4]), Number(s[5..7]), Number(s[8..10]), Number(s[11..13]), Number(s[14..16]), Number(s[17..19]))
  }

  /** The offset behind a date-time, in seconds; none means the zone of the device. */
  function Offset(zone: string, device: int): Option<int> {
    if zone == "" then Some(device)
    else if zone == "Z" then Some(0)
    else if && |zone| == 6 && (zone[0] == '+' || zone[0] == '-') && zone[3] == ':'
            && Digits(zone[1..3]) && Digits(zone[4..6]) && Number(zone[4..6]) < 60
    then
      var offset := Number(zone[1..3]) * 3600 + Number(zone[4..6]) * 60;
      Some(if zone[0] == '+' then offset else -offset)
    else None
  }

  predicate Parses(s: string) {
    Shaped(s) && Valid(Read(s)) && Offset(s[19..], 0).Some?
  }

  /** parseISO8601ToTimestamp: 0 for what it cannot read. */
  function Epoch(s: string, device: int): int {
    if Parses(s) then Seconds(Read(s)) - Offset(s[19..], device).value else 0
  }

  // ----- Clock order ---------------------------------------------------------------------

  predicate Earlier(f: Fields, g: Fields) {
    || f.year < g.year
    || (f.year == g.year && f.month < g.month)
    || (f.year == g.year && f.month == g.month && f.day < g.day)
    || (f.year == g.year && f.month == g.month && f.day == g.day && f.hour < g.hour)
    || (f.year == g.year && f.month == g.month && f.day == g.day && f.hour == g.hour && f.minute < g.minute)
    || (f.year == g.year && f.month == g.month && f.day == g.day && f.hour == g.hour && f.minute == g.minute
        && f.second < g.second)
  }

  lemma {:induction false} MonthsAscend(year: int, m: int, n: int)
    requires 1 <= m < n <= 13
    ensures DaysBeforeMonth(year, m) + DaysInMonth(year, m) <= DaysBeforeMonth(year, n)
    decreases n
  {
    if m >= n - 1 {
    } else {
      MonthsAscend(year, m, n - 1);
    }
  }

  lemma {:induction false} FirstDays(year: int, month: int)
    ensures DaysBeforeMonth(year, month) >= 0
    decreases month
  {
    if month <= 1 {
    } else {
      FirstDays(year, month - 1);
    }
  }

  lemma {:induction false} YearsAscend(y: int, z: int)
    requires 1 <= y < z
    ensures DaysBeforeYear(y) + DaysBeforeMonth(y, 13) <= DaysBeforeYear(z)
    decreases z
  {
    hide DaysBeforeMonth;
    if y >= z - 1 {
    } else {
      YearsAscend(y, z - 1);
      FirstDays(z - 1, 13);
    }
  }

  lemma DaysAscend(f: Fields, g: Fields)
    requires Valid(f) && Valid(g)
    requires f.year < g.year || (f.year == g.year && (f.month < g.month || (f.month == g.month && f.day < g.day)))
    ensures Days(f) < Days(g)
  {
    MonthsAscend(f.year, f.month, 13);
    FirstDays(g.year, g.month);
    if f.year < g.year {
      YearsAscend(f.year, g.year);
    } else if f.month < g.month {
      MonthsAscend(f.year, f.month, g.month);
    }
  }

  lemma EarlierSeconds(f: Fields, g: Fields)
    requires Valid(f) && Valid(g) && Earlier(f, g)
    ensures Seconds(f) < Seconds(g)
  {
    var date := f.year == g.year && f.month == g.month && f.day == g.day;
    if !date {
      DaysAscend(f, g);
    }
  }

  // ----- String order --------------------------------------------------------------------

  lemma {:induction false} LessSplit(a: string, b: string, c: string, d: string)
    requires |a| == |b|
    ensures Less(a + c, b + d) <==> Less(a, b) || (a == b && Less(c, d))
  {
    if a == "" {
      assert a + c == c && b + d == d;
    } else {
      LessSplit(a[1..], b[1..], c, d);
      assert (a + c)[1..] == a[1..] + c && (b + d)[1..] == b[1..] + d;
      if a[0] == b[0] {
        assert a == [a[0]] + a[1..] && b == [b[0]] + b[1..];
      }
    }
  }

  /** Equally long digit strings are ordered as numbers. */
  lemma {:induction false} DigitOrder(a: string, b: string)
    requires |a| == |b| && Digits(a) && Digits(b)
    ensures Less(a, b) <==> Number(a) < Number(b)
    ensures a == b <==> Number(a) == Number(b)
  {
    if a == "" {
    } else {
      var n := |a| - 1;
      DigitOrder(a[..n], b[..n]);
      LessSplit(a[..n], b[..n], a[n..], b[n..]);
      assert a == a[..n] + a[n..] && b == b[..n] + b[n..];
      assert Less(a[n..], b[n..]) <==> a[n] < b[n];
    }
  }

  /** One field of a date-time, with what follows it. */
  lemma FieldOrder(s: string, t: string, i: nat, j: nat)
    requires i <= j <= |s| && j <= |t| && Digits(s[i..j]) && Digits(t[i..j])
    ensures Less(s[i..], t[i..]) ==
            (Number(s[i..j]) < Number(t[i..j]) || (Number(s[i..j]) == Number(t[i..j]) && Less(s[j..], t[j..])))
  {
    LessSplit(s[i..j], t[i..j], s[j..], t[j..]);
    DigitOrder(s[i..j], t[i..j]);
    assert s[i..] == s[i..j] + s[j..] && t[i..] == t[i..j] + t[j..];
  }

  lemma SeparatorOrder(s: string, t: string, i: nat)
    requires i < |s| && i < |t| && s[i] == t[i]
    ensures Less(s[i..], t[i..]) <==> Less(s[i + 1..], t[i + 1..])
  {
    assert s[i..][1..] == s[i + 1..] && t[i..][1..] == t[i + 1..];
  }

  lemma StringsAsClocks(s: string, t: string)
    requires Shaped(s) && Shaped(t)
    ensures Less(s, t) <==> Earlier(Read(s), Read(t)) || (Read(s) == Read(t) && Less(s[19..], t[19..]))
  {
    hide Less, Number, Digits;
    assert s[0..] == s && t[0..] == t;
    FieldOrder(s, t, 0, 4);
    SeparatorOrder(s, t, 4);
    FieldOrder(s, t, 5, 7);
    SeparatorOrder(s, t, 7);
    FieldOrder(s, t, 8, 10);
    SeparatorOrder(s, t, 10);
    FieldOrder(s, t, 11, 13);
    SeparatorOrder(s, t, 13);
    FieldOrder(s, t, 14, 16);
    SeparatorOrder(s, t, 16);
    FieldOrder(s, t, 17, 19);
  }

  /** The two orders agree: of two times with the same offset, the string that is greater is
      the later instant. */
  lemma OrdersAgree(s: string, t: string, device: int)
    requires Parses(s) && Parses(t) && s[19..] == t[19..]
    ensures Less(s, t) <==> Epoch(s, device) < Epoch(t, device)
  {
    StringsAsClocks(s, t);
    LessIrreflexive(s[19..]);
    if Earlier(Read(s), Read(t)) {
      EarlierSeconds(Read(s), Read(t));
    } else if Read(s) != Read(t) {
      EarlierSeconds(Read(t), Read(s));
    }
  }

  /** How far the clock of t is ahead of that of s, and the offset of t of that of s. */
  function ClockLead(s: string, t: string): int
    requires Shaped(s) && Shaped(t)
  {
    Seconds(Read(t)) - Seconds(Read(s))
  }

  function OffsetLead(s: string, t: string, device: int): int
    requires Parses(s) && Parses(t)
  {
    Offset(t[19..], device).value - Offset(s[19..], device).value
  }

  /** For any two times and offsets: the strings follow the clocks, and only then the suffixes;
      the instants compare how far the clocks and the offsets are apart. */
  lemma OrdersExact(s: string, t: string, device: int)
    requires Parses(s) && Parses(t)
    ensures var clock, offset := ClockLead(s, t), OffsetLead(s, t, device);
            && (Less(s, t) <==> clock > 0 || (clock == 0 && Less(s[19..], t[19..])))
            && (Epoch(s, device) < Epoch(t, device) <==> clock > offset)
            && ((Less(s, t) <==> Epoch(s, device) < Epoch(t, device)) <==>
                  if clock > 0 then clock > offset
                  else if clock < 0 then clock <= offset
                  else Less(s[19..], t[19..]) <==> offset < 0)
  {
    hide Number, Shaped, Less, DaysBeforeYear;
    StringsAsClocks(s, t);
    if Earlier(Read(s), Read(t)) {
      EarlierSeconds(Read(s), Read(t));
    } else if Read(s) != Read(t) {
      EarlierSeconds(Read(t), Read(s));
    }
  }

  const TEN_IN_GREENWICH := "2025-01-01T10:00:00+00:00"
  const HALF_PAST_TEN_IN_INDIA := "2025-01-01T10:30:00+05:30"

  lemma ReadsGreenwich(device: int)
    ensures var s := TEN_IN_GREENWICH;
            && Shaped(s) && Read(s) == Fields(2025, 1, 1, 10, 0, 0)
            && Offset(s[19..], device) == Some(0)
  {
    hide Number;
    var s := TEN_IN_GREENWICH;
    assert s[0..4] == "2025" && s[5..7] == "01" && s[8..10] == "01" && s[11..13] == "10";
    assert s[14..16] == "00" && s[17..19] == "00" && s[20..22] == "00" && s[23..25] == "00";
    ReadsDigits(s);
    OffsetDigits(s, device);
  }

  lemma ReadsIndia(device: int)
    ensures var s := HALF_PAST_TEN_IN_INDIA;
            && Shaped(s) && Read(s) == Fields(2025, 1, 1, 10, 30, 0)
            && Offset(s[19..], device) == Some(19800)
  {
    hide Number;
    var s := HALF_PAST_TEN_IN_INDIA;
    assert s[0..4] == "2025" && s[5..7] == "01" && s[8..10] == "01" && s[11..13] == "10";
    assert s[14..16] == "30" && s[17..19] == "00" && s[20..22] == "05" && s[23..25] == "30";
    ReadsDigits(s);
    OffsetDigits(s, device);
  }

  /** With different offsets they need not: half past ten in India is before ten in Greenwich. */
  lemma OrdersDisagreeAcrossZones(device: int)
    ensures var s, t := TEN_IN_GREENWICH, HALF_PAST_TEN_IN_INDIA;
            Parses(s) && Parses(t) && Less(s, t) && Epoch(s, device) > Epoch(t, device)
  {
    hide Number, Shaped, Read, Offset, Less, DaysBeforeYear, TEN_IN_GREENWICH, HALF_PAST_TEN_IN_INDIA;
    ReadsGreenwich(device);
    ReadsIndia(device);
    ReadsGreenwich(0);
    ReadsIndia(0);
    StringsAsClocks(TEN_IN_GREENWICH, HALF_PAST_TEN_IN_INDIA);
  }

  lemma OffsetDigits(s: string, device: int)
    requires |s| == 25 && s[19] == '+' && s[22] == ':' && Digits(s[20..22]) && Digits(s[23..25]) && s[23] < '6'
    ensures Offset(s[19..], device) == Some(
              (10 * Digit(s[20]) + Digit(s[21])) * 3600 + (10 * Digit(s[23]) + Digit(s[24])) * 60)
  {
    assert s[19..][1..3] == s[20..22] && s[19..][4..6] == s[23..25];
    TwoDigits(s, 20);
    TwoDigits(s, 23);
  }

  function Digit(c: char): int {
    c as int - '0' as int
  }

  lemma TwoDigits(s: string, i: nat)
    requires i + 2 <= |s|
    ensures Number(s[i..i + 2]) == 10 * Digit(s[i]) + Digit(s[i + 1])
  {
    var a := s[i..i + 2];
    assert a[..1][..0] == "";
    assert Number(a[..1]) == 10 * Number("") + Digit(a[0]);
  }

  lemma ReadsDigits(s: string)
    requires Shaped(s)
    ensures Read(s) == Fields(
              1000 * Digit(s[0]) + 100 * Digit(s[1]) + 10 * Digit(s[2]) + Digit(s[3]),
              10 * Digit(s[5]) + Digit(s[6]), 10 * Digit(s[8]) + Digit(s[9]), 10 * Digit(s[11]) + Digit(s[12]),
              10 * Digit(s[14]) + Digit(s[15]), 10 * Digit(s[17]) + Digit(s[18]))
  {
    TwoDigits(s, 0);
    TwoDigits(s, 5);
    TwoDigits(s, 8);
    TwoDigits(s, 11);
    TwoDigits(s, 14);
    TwoDigits(s, 17);
    var y := s[0..4];
    assert y[..3][..2] == s[0..2];
    assert Number(y[..3]) == 10 * Number(y[..3][..2]) + Digit(y[2]);
    assert Number(y) == 10 * Number(y[..3]) + Digit(y[3]);
  }

  /** What a heartbeat response calls newer is skipped by a guarded sync exactly when the clock
      of the server's time is not further ahead than its offset. */
  lemma NewerIsAppliedExact(m: Manager, manifest: map<string, string>, f: string, device: int)
    requires Newer(m, manifest, f) && Guarded(f)
    requires LocalStamp(m, f) != "" ==> Parses(LocalStamp(m, f)) && Parses(manifest[f])
    ensures Skips(m, f, manifest[f], (s: string) => Epoch(s, device))
        <==> LocalStamp(m, f) != ""
             && ClockLead(LocalStamp(m, f), manifest[f]) <= OffsetLead(LocalStamp(m, f), manifest[f], device)
  {
    if LocalStamp(m, f) != "" {
      OrdersExact(LocalStamp(m, f), manifest[f], device);
    }
    hide Epoch, Parses, ClockLead, OffsetLead;
  }

  /** Files whose times the server writes with one offset are never caught between the two
      orders: what a heartbeat response calls newer, the sync applies. */
  lemma NewerIsApplied(m: Manager, manifest: map<string, string>, f: string, device: int)
    requires Newer(m, manifest, f)
    requires LocalStamp(m, f) != "" ==>
               Parses(LocalStamp(m, f)) && Parses(manifest[f]) && LocalStamp(m, f)[19..] == manifest[f][19..]
    ensures !Skips(m, f, manifest[f], (s: string) => Epoch(s, device))
  {
    if LocalStamp(m, f) != "" {
      OrdersAgree(LocalStamp(m, f), manifest[f], device);
    }
  }
}
