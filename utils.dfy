/**
 * The presentation rules (src/utils/index.ts): colour and labels per
 * priority, and the relative due-date label.
 *
 * Timestamps are integer milliseconds, read in UTC. The current time that
 * `dayjs()` reads is the parameter `now`; the due date is the timestamp the
 * stored ISO string denotes.
 */
module Utils {
  import opened Types
  import Decimal

  predicate IsHexDigit(c: char) {
    '0' <= c <= '9' || 'A' <= c <= 'F'
  }

  /** A colour token of the form #RRGGBB. */
  predicate IsHexColor(c: string) {
    |c| == 7 && c[0] == '#' && forall i :: 1 <= i < 7 ==> IsHexDigit(c[i])
  }

  /** `getPriorityColor`. */
  function PriorityColor(p: Priority): (c: string)
    ensures IsHexColor(c)
  {
    match p
    case HIGH => "#4CAF50"
    case MEDIUM => "#FFA000"
    case LOW => "#757575"
  }

  /** The three priorities have three different colours. */
  lemma PriorityColorInjective(p: Priority, q: Priority)
    ensures PriorityColor(p) == PriorityColor(q) <==> p == q
  {
    assert PriorityColor(HIGH)[1] == '4' && PriorityColor(MEDIUM)[1] == 'F' && PriorityColor(LOW)[1] == '7';
  }

  /** `getPriorityTextButton`: the short label on the priority buttons. */
  function PriorityShortLabel(p: Priority): string {
    match p
    case HIGH => "Cao"
    case MEDIUM => "Trung bình"
    case LOW => "Thấp"
  }

  /** The three short labels are different. */
  lemma PriorityShortLabelInjective(p: Priority, q: Priority)
    ensures PriorityShortLabel(p) == PriorityShortLabel(q) <==> p == q
  {
    assert PriorityShortLabel(HIGH)[0] == 'C' && PriorityShortLabel(MEDIUM)[1] == 'r' && PriorityShortLabel(LOW)[1] == 'h';
  }

  const LabelPrefix: string := "Ưu tiên "

  /** `getPriorityText`: the long label shown on an item, "Ưu tiên " and a level. */
  function PriorityLabel(p: Priority): (s: string)
    ensures |s| > |LabelPrefix| && s[..|LabelPrefix|] == LabelPrefix
  {
    match p
    case HIGH => "Ưu tiên cao"
    case MEDIUM => "Ưu tiên trung bình"
    case LOW => "Ưu tiên thấp"
  }

  /** The three long labels are different. */
  lemma PriorityLabelInjective(p: Priority, q: Priority)
    ensures PriorityLabel(p) == PriorityLabel(q) <==> p == q
  {
    assert PriorityLabel(HIGH)[8] == 'c' && PriorityLabel(MEDIUM)[9] == 'r' && PriorityLabel(LOW)[9] == 'h';
  }

  const MsPerDay: int := 86400000

  /** The calendar day (days since the epoch, in UTC) that timestamp `t` falls on. */
  function DayOf(t: int): int {
    t / MsPerDay
  }

  /** The first millisecond of the calendar day of `t`, as `startOf('day')` gives it. */
  function StartOfDay(t: int): (s: int)
    ensures s <= t < s + MsPerDay
  {
    DayOf(t) * MsPerDay
  }

  /** `currentDate.isAfter(dueDate, 'day')`: the due time lies before the start of today. */
  function IsAfterDay(now: int, due: int): (b: bool)
    ensures b <==> DayOf(now) > DayOf(due)
  {
    assert StartOfDay(due) <= due < StartOfDay(due) + MsPerDay;
    due < StartOfDay(now)
  }

  /** `dueDate.diff(currentDate, 'day')`: whole days elapsed from `now` to `due`, truncated toward zero. */
  function DiffDays(due: int, now: int): (d: int)
    ensures d >= 0 <==> due > now - MsPerDay
    ensures due >= now ==> d * MsPerDay <= due - now < (d + 1) * MsPerDay
    ensures due < now ==> (d - 1) * MsPerDay < due - now <= d * MsPerDay
  {
    var ms := due - now;
    if ms >= 0 then ms / MsPerDay else -((-ms) / MsPerDay)
  }

  /** `getDueDateText`. */
  function DueDateText(now: int, due: int): (r: string)
    ensures IsAfterDay(now, due) ==> r == "Quá hạn"
  {
    var diff := DiffDays(due, now);
    if IsAfterDay(now, due) then "Quá hạn"
    else if diff == 0 then "Hôm nay"
    else if diff == 1 then "Ngày mai"
    else "Còn " + Decimal.IntToString(diff) + " ngày"
  }

  /**
   * When the due date is not on an earlier calendar day, the elapsed-day
   * difference is not negative, and it is the calendar-day difference or one
   * less.
   */
  lemma NotOverdueDiff(now: int, due: int)
    requires !IsAfterDay(now, due)
    ensures DiffDays(due, now) >= 0
    ensures DayOf(due) - DayOf(now) - 1 <= DiffDays(due, now) <= DayOf(due) - DayOf(now)
  {
    assert StartOfDay(due) <= due < StartOfDay(due) + MsPerDay;
    assert StartOfDay(now) <= now < StartOfDay(now) + MsPerDay;
  }

  /**
   * The label takes exactly one of four forms: overdue (whatever the
   * difference), today for a difference of 0, tomorrow for 1, and
   * "Còn N ngày" for a difference N of at least 2.
   */
  lemma DueDateTextCases(now: int, due: int)
    ensures DueDateText(now, due) == "Quá hạn" <==> IsAfterDay(now, due)
    ensures DueDateText(now, due) == "Hôm nay" <==> !IsAfterDay(now, due) && DiffDays(due, now) == 0
    ensures DueDateText(now, due) == "Ngày mai" <==> !IsAfterDay(now, due) && DiffDays(due, now) == 1
    ensures forall n: nat :: DueDateText(now, due) == "Còn " + Decimal.NatToString(n) + " ngày" <==>
              !IsAfterDay(now, due) && n == DiffDays(due, now) && n >= 2
  {
    var r := DueDateText(now, due);
    var diff := DiffDays(due, now);
    if !IsAfterDay(now, due) {
      NotOverdueDiff(now, due);
    }
    forall n: nat
      ensures r == "Còn " + Decimal.NatToString(n) + " ngày" <==> !IsAfterDay(now, due) && n == diff && n >= 2
    {
      var c := "Còn " + Decimal.NatToString(n) + " ngày";
      assert c[0] == 'C' && c[1] == 'ò';
      if r == c {
        assert !IsAfterDay(now, due) && diff >= 2;
        assert r == "Còn " + Decimal.NatToString(diff) + " ngày";
        assert Decimal.NatToString(diff) == r[4..|r| - 5];
        assert Decimal.NatToString(n) == c[4..|c| - 5];
        Decimal.NatToStringInjective(n, diff);
      }
    }
  }

  /** Worked cases: two days ahead, a day ago, and later the same calendar day. */
  lemma DueDateTextExamples(now: int, due: int)
    ensures DueDateText(now, now + 2 * MsPerDay) == "Còn 2 ngày"
    ensures DueDateText(now, now - MsPerDay) == "Quá hạn"
    ensures DayOf(due) == DayOf(now) ==> DueDateText(now, due) == "Hôm nay"
  {
    assert Decimal.NatToString(2) == "2";
    assert StartOfDay(due) <= due < StartOfDay(due) + MsPerDay;
    assert StartOfDay(now) <= now < StartOfDay(now) + MsPerDay;
  }

  /**
   * As written, a due time early on the next calendar day reads as today:
   * at 23:00 a task due at 01:00 the next day is less than one whole day
   * away.
   */
  lemma NextDayShownAsToday()
    ensures DayOf(25 * 3600000) == DayOf(23 * 3600000) + 1
    ensures DueDateText(23 * 3600000, 25 * 3600000) == "Hôm nay"
  {
  }

  /**
   * The label by calendar days. Both timestamps are cut to the start of
   * their day before the difference is taken.
   */
  function CalendarDueDateText(now: int, due: int): string {
    var days := DayOf(due) - DayOf(now);
    if days < 0 then "Quá hạn"
    else if days == 0 then "Hôm nay"
    else if days == 1 then "Ngày mai"
    else "Còn " + Decimal.NatToString(days) + " ngày"
  }

  /** The calendar label says today, tomorrow or "Còn N ngày" exactly for the calendar day 0, 1 or N ahead. */
  lemma CalendarDueDateTextCases(now: int, due: int)
    ensures CalendarDueDateText(now, due) == "Quá hạn" <==> IsAfterDay(now, due)
    ensures CalendarDueDateText(now, due) == "Hôm nay" <==> DayOf(due) == DayOf(now)
    ensures CalendarDueDateText(now, due) == "Ngày mai" <==> DayOf(due) == DayOf(now) + 1
    ensures forall n: nat :: CalendarDueDateText(now, due) == "Còn " + Decimal.NatToString(n) + " ngày" <==>
              DayOf(due) == DayOf(now) + n && n >= 2
  {
    var r := CalendarDueDateText(now, due);
    var days := DayOf(due) - DayOf(now);
    forall n: nat
      ensures r == "Còn " + Decimal.NatToString(n) + " ngày" <==> days == n && n >= 2
    {
      var c := "Còn " + Decimal.NatToString(n) + " ngày";
      assert c[0] == 'C' && c[1] == 'ò';
      if r == c {
        assert days >= 2;
        assert Decimal.NatToString(days) == r[4..|r| - 5];
        assert Decimal.NatToString(n) == c[4..|c| - 5];
        Decimal.NatToStringInjective(n, days);
      }
    }
  }

  /** The two labels agree whenever the due time of day is not earlier than the current one. */
  lemma CalendarAgreesLaterInDay(now: int, due: int)
    requires due - StartOfDay(due) >= now - StartOfDay(now)
    ensures DueDateText(now, due) == CalendarDueDateText(now, due)
  {
    if !IsAfterDay(now, due) {
      NotOverdueDiff(now, due);
      assert DiffDays(due, now) == DayOf(due) - DayOf(now);
    }
  }
}
