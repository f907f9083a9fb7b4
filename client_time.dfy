/** The date and time helpers the client components share: `toISODate`,
    `isPastDate` and `timeIsPastForToday` (the same text appears in the
    creation form, the reservation card and the calendar). The clock is not
    read here: "today" is passed in as its ISO text and "now" as the
    milliseconds elapsed since local midnight. */
module ClientTime {
  import opened JsValues
  import opened JsStrings
  import opened TimeGrid

  /** `${y}-${m}-${d}` with the month and the day zero-padded to two digits
      and the year printed as it is. */
  function ToISODate(year: nat, month: nat, day: nat): string {
    NatToString(year) + "-" + PadStart2(NatToString(month)) + "-" + PadStart2(NatToString(day))
  }

  /** For four-digit years, real months and days, the text is an extended
      format calendar date (ISO 8601:2004 section 4.1.2.2, YYYY-MM-DD):
      ten characters, hyphens at positions 4 and 7, digits elsewhere, and
      the three fields read back as the year, the month and the day. */
  lemma ISODateFormat(year: nat, month: nat, day: nat)
    requires 1000 <= year <= 9999 && 1 <= month <= 12 && 1 <= day <= 31
    ensures var iso := ToISODate(year, month, day);
      && |iso| == 10 && iso[4] == '-' && iso[7] == '-'
      && AllDigits(iso[..4]) && AllDigits(iso[5..7]) && AllDigits(iso[8..])
      && DigitsValue(iso[..4]) == year && DigitsValue(iso[5..7]) == month && DigitsValue(iso[8..]) == day
  {
    var ys, ms, ds := NatToString(year), PadStart2(NatToString(month)), PadStart2(NatToString(day));
    NatToStringWidth(year);
    PaddedOrder(month, day);
    PaddedValue(month);
    PaddedValue(day);
    var iso := ToISODate(year, month, day);
    assert iso == ys + "-" + ms + "-" + ds;
    assert iso[..4] == ys && iso[5..7] == ms && iso[8..] == ds;
  }

  /** Dates printed this way sort as strings in calendar order: `iso1 <
      iso2` holds exactly when the first date comes first, and the texts
      are equal exactly when the dates are. */
  lemma ISODateOrder(y1: nat, m1: nat, d1: nat, y2: nat, m2: nat, d2: nat)
    requires 1000 <= y1 <= 9999 && 1 <= m1 <= 12 && 1 <= d1 <= 31
    requires 1000 <= y2 <= 9999 && 1 <= m2 <= 12 && 1 <= d2 <= 31
    ensures ToISODate(y1, m1, d1) == ToISODate(y2, m2, d2) <==> y1 == y2 && m1 == m2 && d1 == d2
    ensures Less(ToISODate(y1, m1, d1), ToISODate(y2, m2, d2)) <==>
      y1 < y2 || (y1 == y2 && (m1 < m2 || (m1 == m2 && d1 < d2)))
  {
    var ys1, ms1, ds1 := NatToString(y1), PadStart2(NatToString(m1)), PadStart2(NatToString(d1));
    var ys2, ms2, ds2 := NatToString(y2), PadStart2(NatToString(m2)), PadStart2(NatToString(d2));
    NatToStringWidth(y1);
    NatToStringWidth(y2);
    SameWidthOrder(ys1, ys2, y1, y2);
    PaddedOrder(m1, m2);
    PaddedOrder(d1, d2);
    DashedEqual(ys1, ms1, ds1, ys2, ms2, ds2);
    DashedLess(ys1, ms1, ds1, ys2, ms2, ds2);
  }

  /** Texts `a-b-c` with fields of equal widths are equal exactly when
      their fields are. */
  lemma DashedEqual(a1: string, b1: string, c1: string, a2: string, b2: string, c2: string)
    requires |a1| == |a2| && |b1| == |b2|
    ensures a1 + "-" + b1 + "-" + c1 == a2 + "-" + b2 + "-" + c2 <==> a1 == a2 && b1 == b2 && c1 == c2
  {
    var s1, s2 := a1 + "-" + b1 + "-" + c1, a2 + "-" + b2 + "-" + c2;
    if s1 == s2 {
      var n, k := |a1|, |b1|;
      assert s1[..n] == a1 && s2[..n] == a2;
      assert s1[n + 1..n + 1 + k] == b1 && s2[n + 1..n + 1 + k] == b2;
      assert s1[n + k + 2..] == c1 && s2[n + k + 2..] == c2;
    }
  }

  /** Texts `a-b-c` with fields of equal widths compare field by field. */
  lemma DashedLess(a1: string, b1: string, c1: string, a2: string, b2: string, c2: string)
    requires |a1| == |a2| && |b1| == |b2|
    ensures Less(a1 + "-" + b1 + "-" + c1, a2 + "-" + b2 + "-" + c2) <==>
      Less(a1, a2) || (a1 == a2 && (Less(b1, b2) || (b1 == b2 && Less(c1, c2))))
  {
    var t1, t2 := "-" + c1, "-" + c2;
    var r1, r2 := "-" + (b1 + t1), "-" + (b2 + t2);
    assert a1 + "-" + b1 + "-" + c1 == a1 + r1;
    assert a2 + "-" + b2 + "-" + c2 == a2 + r2;
    LessConcat(a1, a2, r1, r2);
    LessSamePrefix("-", b1 + t1, b2 + t2);
    LessConcat(b1, b2, t1, t2);
    LessSamePrefix("-", c1, c2);
    LessIrreflexive(a1);
    LessIrreflexive(b1);
  }

  /** `isPastDate`: an empty date is never past; otherwise the ISO text is
      compared with today's as strings. */
  predicate IsPastDate(date: string, today: string) {
    date != "" && Less(date, today)
  }

  /** On printed dates `isPastDate` is calendar order: no date is never
      past, and a date is past exactly when its day comes before today. */
  lemma PastDateIsEarlierDay(y: nat, m: nat, d: nat, ty: nat, tm: nat, td: nat)
    requires 1000 <= y <= 9999 && 1 <= m <= 12 && 1 <= d <= 31
    requires 1000 <= ty <= 9999 && 1 <= tm <= 12 && 1 <= td <= 31
    ensures !IsPastDate("", ToISODate(ty, tm, td))
    ensures IsPastDate(ToISODate(y, m, d), ToISODate(ty, tm, td)) <==>
      y < ty || (y == ty && (m < tm || (m == tm && d < td)))
  {
    ISODateFormat(y, m, d);
    ISODateOrder(y, m, d, ty, tm, td);
  }

  /** `timeIsPastForToday`: only today's times can be past. The time is read
      as `hh:mm` with `Number`; a part that is missing or not a number makes
      the candidate an invalid date, and comparisons with it are false. */
  predicate TimeIsPastForToday(date: string, time: string, today: string, nowMs: int) {
    if date == "" || time == "" || date != today then false
    else
      var pieces := Split(time, ':');
      match (PartAt(pieces, 0), PartAt(pieces, 1))
      case (Num(h), Num(m)) => (h * 60 + m) * 60000 < nowMs
      case _ => false
  }

  /** For a printed clock time on today's date, "past" means that the
      minute it names started before now. */
  lemma PastClockTime(today: string, t: int, nowMs: int)
    requires today != "" && t >= 0
    ensures TimeIsPastForToday(today, ClockText(t), today, nowMs) <==> t * 60000 < nowMs
  {
    ClockTextParts(t);
    assert |ClockText(t)| >= 2;
  }

  /** On any other day, or without a date or a time, nothing is past. */
  lemma OnlyTodayIsPast(date: string, time: string, today: string, nowMs: int)
    requires date == "" || time == "" || date != today
    ensures !TimeIsPastForToday(date, time, today, nowMs)
  {
  }
}
