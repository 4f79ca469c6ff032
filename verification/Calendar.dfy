/** Which instant a last_modified time stands for, by the closed form of the Gregorian calendar. */
module Calendar {
  import opened Options
  import opened Timestamps

  const BEFORE_MONTH := [0, 31, 59, 90, 120, 151, 181, 212, 243, 273, 304, 334, 365]

  predicate LeapYear(y: int) {
    (y % 4 == 0 && y % 100 != 0) || y % 400 == 0
  }

  function LeapDay(y: int): int {
    if LeapYear(y) then 1 else 0
  }

  /** The days from 0001-01-01 to the given day. */
  function DayNumber(y: int, m: int, d: int): int
    requires 1 <= m <= 12
  {
    365 * (y - 1) + (y - 1) / 4 - (y - 1) / 100 + (y - 1) / 400
    + BEFORE_MONTH[m - 1] + (if m > 2 then LeapDay(y) else 0) + d - 1
  }

  predicate DayExists(y: int, m: int, d: int) {
    y >= 1 && 1 <= m <= 12 && 1 <= d <= BEFORE_MONTH[m] - BEFORE_MONTH[m - 1] + if m == 2 then LeapDay(y) else 0
  }

  lemma Quotients(y: int)
    requires y >= 1
    ensures y / 4 == (y - 1) / 4 + (if y % 4 == 0 then 1 else 0)
    ensures y / 100 == (y - 1) / 100 + (if y % 100 == 0 then 1 else 0)
    ensures y / 400 == (y - 1) / 400 + (if y % 400 == 0 then 1 else 0)
  {}

  lemma Divisors(y: int)
    ensures y % 100 == 0 ==> y % 4 == 0
    ensures y % 400 == 0 ==> y % 100 == 0
  {}

  lemma {:induction false} MonthClosed(y: int, m: int)
    requires 1 <= m <= 13
    ensures DaysBeforeMonth(y, m) == BEFORE_MONTH[m - 1] + if m > 2 then LeapDay(y) else 0
    decreases m
  {
    Divisors(y);
    if m == 1 {
    } else {
      MonthClosed(y, m - 1);
    }
  }

  /** The leap years before year y. */
  function LeapsBefore(y: int): int {
    (y - 1) / 4 - (y - 1) / 100 + (y - 1) / 400
  }

  lemma OneMoreYear(y: int)
    requires y >= 1
    ensures LeapsBefore(y + 1) == LeapsBefore(y) + LeapDay(y)
  {
    Quotients(y);
    Divisors(y);
  }

  lemma FirstYear()
    ensures DaysBeforeYear(1) == 0 && LeapsBefore(1) == 0
  {}

  lemma YearStep(y: int)
    requires y > 1
    ensures DaysBeforeYear(y) == DaysBeforeYear(y - 1) + 365 + LeapDay(y - 1)
  {
    hide LeapDay, DaysBeforeMonth;
    MonthClosed(y - 1, 13);
  }

  lemma {:induction false} YearClosed(y: int)
    requires y >= 1
    ensures DaysBeforeYear(y) == 365 * (y - 1) + LeapsBefore(y)
    decreases y
  {
    hide LeapsBefore, LeapDay, DaysBeforeYear;
    if y == 1 {
      FirstYear();
    } else {
      YearStep(y);
      YearClosed(y - 1);
      OneMoreYear(y - 1);
    }
  }

  function Two(s: string, i: nat): int
    requires i + 2 <= |s|
  {
    10 * Digit(s[i]) + Digit(s[i + 1])
  }

  /** Digits at all places of yyyy-MM-ddTHH:mm:ss, and the separators between them. */
  predicate Layout(s: string) {
    && |s| >= 19 && s[4] == '-' && s[7] == '-' && s[10] == 'T' && s[13] == ':' && s[16] == ':'
    && forall i :: 0 <= i < 19 && i != 4 && i != 7 && i != 10 && i != 13 && i != 16 ==> '0' <= s[i] <= '9'
  }

  /** A day and a time of day that exist. */
  predicate OnTheClock(s: string)
    requires Layout(s)
  {
    && DayExists(100 * Two(s, 0) + Two(s, 2), Two(s, 5), Two(s, 8))
    && Two(s, 11) <= 23 && Two(s, 14) <= 59 && Two(s, 17) <= 59
  }

  /** The zone: none, Z, or a sign, hours and minutes. */
  predicate ZoneForm(z: string) {
    || z == "" || z == "Z"
    || (&& |z| == 6 && (z[0] == '+' || z[0] == '-') && z[3] == ':'
        && '0' <= z[1] <= '9' && '0' <= z[2] <= '9' && '0' <= z[4] <= '5' && '0' <= z[5] <= '9')
  }

  function ZoneSeconds(z: string, device: int): int
    requires ZoneForm(z)
  {
    if z == "" then device else if z == "Z" then 0
    else (Two(z, 1) * 60 + Two(z, 4)) * 60 * if z[0] == '-' then -1 else 1
  }

  lemma ZoneExact(z: string, device: int)
    ensures Offset(z, device) == if ZoneForm(z) then Some(ZoneSeconds(z, device)) else None
  {
    if |z| == 6 {
      TwoDigits(z, 1);
      TwoDigits(z, 4);
    }
  }

  lemma LayoutExact(s: string)
    ensures Shaped(s) <==> Layout(s)
  {
    if |s| >= 19 {
      assert Digits(s[0..4]) <==> forall i :: 0 <= i < 4 ==> '0' <= s[i] <= '9' by { DigitsAt(s, 0, 4); }
      DigitsAt(s, 5, 7);
      DigitsAt(s, 8, 10);
      DigitsAt(s, 11, 13);
      DigitsAt(s, 14, 16);
      DigitsAt(s, 17, 19);
    }
  }

  lemma DigitsAt(s: string, i: nat, j: nat)
    requires i <= j <= |s|
    ensures Digits(s[i..j]) <==> forall k :: i <= k < j ==> '0' <= s[k] <= '9'
  {
    if Digits(s[i..j]) {
      forall k | i <= k < j
        ensures '0' <= s[k] <= '9'
      {
        assert s[i..j][k - i] == s[k];
      }
    }
  }

  lemma ValidExact(f: Fields)
    ensures Valid(f) <==> DayExists(f.year, f.month, f.day) && 0 <= f.hour <= 23 && 0 <= f.minute <= 59 && 0 <= f.second <= 59
  {
    Divisors(f.year);
  }

  lemma SecondsExact(f: Fields)
    requires Valid(f)
    ensures 1 <= f.month <= 12
    ensures Seconds(f) == (DayNumber(f.year, f.month, f.day) - 719162) * 86400 + f.hour * 3600 + f.minute * 60 + f.second
  {
    hide Days, DayNumber, DaysBeforeYear;
    DaysExact(f);
    DaysBefore1970();
  }

  lemma DaysExact(f: Fields)
    requires Valid(f)
    ensures 1 <= f.month <= 12 && Days(f) == DayNumber(f.year, f.month, f.day)
  {
    MonthClosed(f.year, f.month);
    YearClosed(f.year);
    hide DaysBeforeMonth, DaysBeforeYear, LeapDay, DaysInMonth;
  }

  lemma DaysBefore1970()
    ensures DaysBeforeYear(1970) == 719162
  {
    hide DaysBeforeYear;
    YearClosed(1970);
  }

  /** A time is readable exactly if it has this layout, is on the calendar and the clock, and ends in
      a zone of that form; it stands for the seconds from 1970-01-01T00:00:00Z, and an unreadable one
      for 0. */
  lemma EpochExact(s: string, device: int)
    ensures Parses(s) <==> Layout(s) && OnTheClock(s) && ZoneForm(s[19..])
    ensures Epoch(s, device) ==
            if Parses(s) then
              (DayNumber(100 * Two(s, 0) + Two(s, 2), Two(s, 5), Two(s, 8)) - 719162) * 86400
              + Two(s, 11) * 3600 + Two(s, 14) * 60 + Two(s, 17) - ZoneSeconds(s[19..], device)
            else 0
  {
    LayoutExact(s);
    hide Number, Seconds, DayNumber, DayExists, Valid, Offset, ZoneForm, ZoneSeconds, Read;
    if Shaped(s) {
      ReadsDigits(s);
      ValidExact(Read(s));
      ZoneExact(s[19..], 0);
      ZoneExact(s[19..], device);
      if Valid(Read(s)) {
        SecondsExact(Read(s));
      }
    }
  }
}
